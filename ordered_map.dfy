/** std::map<std::string, V>: the entries in ascending key order, each key once.
    Only what the adapter uses is modelled: find, emplace (insert unless the key
    is already present) and begin() (the first, smallest entry). */
module OrderedMap {
  import opened Wrappers
  import opened Strings

  /** Keys strictly ascending, hence distinct. */
  predicate Sorted<V>(m: seq<(string, V)>)
  {
    forall i, j :: 0 <= i < j < |m| ==> Less(m[i].0, m[j].0)
  }

  /** std::map::find. */
  function Lookup<V>(m: seq<(string, V)>, k: string): (r: Option<V>)
    ensures r.None? ==> forall i :: 0 <= i < |m| ==> m[i].0 != k
    ensures r.Some? ==> exists i :: 0 <= i < |m| && m[i] == (k, r.value)
  {
    if |m| == 0 then None
    else if m[0].0 == k then Some(m[0].1)
    else
      var r := Lookup(m[1..], k);
      assert r.Some? ==> exists i :: 1 <= i < |m| && m[i] == (k, r.value) by {
        if r.Some? {
          var i :| 0 <= i < |m[1..]| && m[1..][i] == (k, r.value);
          assert m[i + 1] == (k, r.value);
        }
      }
      r
  }

  /** std::map::emplace(k, v): inserts the entry at its ordered position unless
      the key is already present, in which case the map is unchanged. */
  function Emplace<V>(m: seq<(string, V)>, k: string, v: V): (r: seq<(string, V)>)
    requires Sorted(m)
    ensures Sorted(r)
    ensures Lookup(m, k).Some? ==> r == m
    ensures Lookup(m, k).None? ==> Lookup(r, k) == Some(v)
    ensures forall k' :: k' != k ==> Lookup(r, k') == Lookup(m, k')
    ensures forall i :: 0 <= i < |r| ==> r[i] == (k, v) || r[i] in m
  {
    if |m| == 0 then [(k, v)]
    else if m[0].0 == k then m
    else if Less(k, m[0].0) then
      PrependSmallest(m, k, v);
      [(k, v)] + m
    else
      LessTotal(k, m[0].0);
      var rest := Emplace(m[1..], k, v);
      RestAboveFirst(m, k, v, rest);
      [m[0]] + rest
  }

  /** A key below the first one goes in front and is not in the map yet. */
  lemma PrependSmallest<V>(m: seq<(string, V)>, k: string, v: V)
    requires Sorted(m) && |m| > 0 && Less(k, m[0].0)
    ensures forall j :: 0 < j < |m| ==> Less(k, m[j].0)
    ensures forall j :: 0 <= j < |m| ==> m[j].0 != k
  {
    forall j | 0 < j < |m| ensures Less(k, m[j].0) {
      LessTransitive(k, m[0].0, m[j].0);
    }
    LessIrreflexive(k);
  }

  /** Emplacing a key above the first one into the rest keeps every entry of
      the result above the first key. */
  lemma RestAboveFirst<V>(m: seq<(string, V)>, k: string, v: V, rest: seq<(string, V)>)
    requires Sorted(m) && |m| > 0 && Less(m[0].0, k)
    requires forall i :: 0 <= i < |rest| ==> rest[i] == (k, v) || rest[i] in m[1..]
    ensures forall j :: 0 <= j < |rest| ==> Less(m[0].0, rest[j].0)
  {
    forall j | 0 <= j < |rest| ensures Less(m[0].0, rest[j].0) {
      if rest[j] != (k, v) {
        var i :| 0 <= i < |m[1..]| && m[1..][i] == rest[j];
        assert m[i + 1] == rest[j];
      }
    }
  }

  /** begin(): in a non-empty sorted map the first entry's key is the smallest key. */
  lemma FirstIsSmallest<V>(m: seq<(string, V)>, k: string)
    requires Sorted(m) && |m| > 0
    requires Lookup(m, k).Some?
    ensures k == m[0].0 || Less(m[0].0, k)
  {
    var i :| 0 <= i < |m| && m[i] == (k, Lookup(m, k).value);
  }
}
