/** The VSS path adapter: it reads shadow updates published under COVESA VSS
    paths, rewrites each leaf's path through a fixed translation table, and
    publishes the translated leaves back as one nested update. The shadow
    values are the protobuf values of the broker, seen as the Python dicts
    that MessageToDict makes of them (a Struct is a dict, a List a list). */
module VssPathAdapter {
  import opened Wrappers
  import opened Strings
  import opened Proto

  // ---------------------------------------------------------------------------
  // The translation table
  // ---------------------------------------------------------------------------

  /** COVESA VSS path to custom data-model path. The paths are spelled in
      pieces of at most twenty characters. */
  const PathTranslationMap: map<string, string> := map[
    SpeedPath := SpeedTarget,
    LatitudePath := LatitudeTarget,
    LongitudePath := LongitudeTarget,
    AltitudePath := AltitudeTarget
  ]

  const SpeedPath := "Vehicle/Speed"
  const LatitudePath := "Vehicle/" + "CurrentLocation/" + "Latitude"
  const LongitudePath := "Vehicle/" + "CurrentLocation/" + "Longitude"
  const AltitudePath := "Vehicle/" + "CurrentLocation/" + "Altitude"
  const SpeedTarget := "Vehicle" + "/" + "EgoVehicle" + "/" + "Motion" + "/" + "Locomotion" + "/" + "Speed"
  const LatitudeTarget :=
    "Vehicle" + "/" + "EgoVehicle" + "/" + "General" + "/" + "State" + "/" + "CurrentLocation" + "/" + "Latitude"
  const LongitudeTarget :=
    "Vehicle" + "/" + "EgoVehicle" + "/" + "General" + "/" + "State" + "/" + "CurrentLocation" + "/" + "Longitude"
  const AltitudeTarget :=
    "Vehicle" + "/" + "EgoVehicle" + "/" + "General" + "/" + "State" + "/" + "CurrentLocation" + "/" + "Altitude"

  /** The facts about one entry of the table the lemmas below use: the key has
      a '/' and no '.', and the target has no '.'. */
  predicate SlashEntry(key: string, target: string)
  {
    '/' in key && '.' !in key && '.' !in target
  }

  lemma SpeedEntry()
    ensures SlashEntry(SpeedPath, SpeedTarget)
  {
    assert SpeedPath[7] == '/';
  }

  lemma LatitudeEntry()
    ensures SlashEntry(LatitudePath, LatitudeTarget)
  {
    assert LatitudePath[7] == '/';
  }

  lemma LongitudeEntry()
    ensures SlashEntry(LongitudePath, LongitudeTarget)
  {
    assert LongitudePath[7] == '/';
  }

  lemma AltitudeEntry()
    ensures SlashEntry(AltitudePath, AltitudeTarget)
  {
    assert AltitudePath[7] == '/';
  }

  /** Every key is a slash path without '.', and every target is a path
      without '.' that is not itself a key. */
  lemma TableShape()
    ensures forall k :: k in PathTranslationMap ==>
      SlashEntry(k, PathTranslationMap[k]) && PathTranslationMap[k] !in PathTranslationMap
  {
    SpeedEntry();
    LatitudeEntry();
    LongitudeEntry();
    AltitudeEntry();
    assert |SpeedPath| < 40 && |LatitudePath| < 40 && |LongitudePath| < 40 && |AltitudePath| < 40;
    assert |SpeedTarget| >= 40 && |LatitudeTarget| >= 40 && |LongitudeTarget| >= 40 && |AltitudeTarget| >= 40;
  }

  /** COVESA_PATHS: the keys of the table in slash form, each once. */
  function CovesaPaths(table: map<string, string>): (r: set<string>)
    ensures forall k :: k in table ==> Replace(k, '.', '/') in r
    ensures forall p :: p in r ==> '.' !in p
    ensures forall p :: p in r ==> exists k :: k in table && p == Replace(k, '.', '/')
    ensures |r| <= |table|
  {
    SlashFormsCount(table.Keys);
    set k | k in table :: Replace(k, '.', '/')
  }

  lemma SlashFormsCount(keys: set<string>)
    ensures |set k | k in keys :: Replace(k, '.', '/')| <= |keys|
    decreases |keys|
  {
    if keys != {} {
      var k :| k in keys;
      var rest := keys - {k};
      SlashFormsCount(rest);
      assert (set x | x in keys :: Replace(x, '.', '/')) ==
        (set x | x in rest :: Replace(x, '.', '/')) + {Replace(k, '.', '/')};
    }
  }

  /** Replacing '.' by '/' changes the path exactly when it has a '.'. */
  lemma NormalizeChanges(p: string)
    ensures Replace(p, '.', '/') == p <==> '.' !in p
  {
    if '.' in p {
      var i :| 0 <= i < |p| && p[i] == '.';
      assert Replace(p, '.', '/')[i] != p[i];
    }
  }

  // ---------------------------------------------------------------------------
  // translate_path
  // ---------------------------------------------------------------------------

  /** translate_path: the path is normalised to slashes and looked up; failing
      that, its dotted form is looked up and the target normalised; failing
      that too, the normalised path is returned. */
  function TranslatePath(table: map<string, string>, covesaPath: string): (r: string)
    ensures Replace(covesaPath, '.', '/') in table ==> r == table[Replace(covesaPath, '.', '/')]
    ensures Replace(covesaPath, '.', '/') !in table && Replace(covesaPath, '/', '.') !in table ==>
      r == Replace(covesaPath, '.', '/')
  {
    var normalized := Replace(covesaPath, '.', '/');
    if normalized in table then table[normalized]
    else
      var dotted := Replace(covesaPath, '/', '.');
      if dotted in table then Replace(table[dotted], '.', '/')
      else normalized
  }

  /** With the shipped table the dotted lookup never hits: every key has a
      '/', and the dotted form has none. */
  lemma DottedLookupNeverHits(covesaPath: string)
    ensures Replace(covesaPath, '/', '.') !in PathTranslationMap
  {
    TableShape();
    assert '/' !in Replace(covesaPath, '/', '.');
  }

  /** A translated path is always in slash form. */
  lemma TranslatedIsSlashForm(covesaPath: string)
    ensures '.' !in TranslatePath(PathTranslationMap, covesaPath)
  {
    DottedLookupNeverHits(covesaPath);
    TableShape();
  }

  /** With the shipped table, translate_path changes a path exactly when its
      slash form is a key of the table or it has a '.': an untranslated dotted
      path comes back in slash form, hence different. */
  lemma TranslateChangesIff(covesaPath: string)
    ensures TranslatePath(PathTranslationMap, covesaPath) != covesaPath <==>
      Replace(covesaPath, '.', '/') in PathTranslationMap || '.' in covesaPath
  {
    DottedLookupNeverHits(covesaPath);
    TableShape();
    NormalizeChanges(covesaPath);
  }

  /** The targets are fixed points: a translated path read back from the
      shadow translates to itself, so it is not republished. */
  lemma TargetsTranslateToThemselves(k: string)
    requires k in PathTranslationMap
    ensures TranslatePath(PathTranslationMap, PathTranslationMap[k]) == PathTranslationMap[k]
  {
    var target := PathTranslationMap[k];
    TableShape();
    NormalizeChanges(target);
    DottedLookupNeverHits(target);
  }

  /** COVESA_PATHS of the shipped table is its key set: no key has a '.'. */
  lemma CovesaPathsAreTheKeys()
    ensures CovesaPaths(PathTranslationMap) == PathTranslationMap.Keys
  {
    TableShape();
    forall k | k in PathTranslationMap ensures Replace(k, '.', '/') == k {
      ReplaceAbsent(k, '.', '/');
    }
  }

  // ---------------------------------------------------------------------------
  // extract_and_translate
  // ---------------------------------------------------------------------------

  /** The traversal path of a dict entry: the key alone at the top level,
      otherwise the parent path, '/', and the key. */
  function ChildPath(currentPath: string, key: string): string
  {
    if currentPath != "" then currentPath + "/" + key else key
  }

  /** No leading '/' at the top level; below it, the path's '/'-separated parts
      are the parent's parts followed by the key's. */
  lemma ChildPathParts(currentPath: string, key: string)
    ensures currentPath == "" ==> ChildPath(currentPath, key) == key
    ensures currentPath != "" ==> Split(ChildPath(currentPath, key), '/') == Split(currentPath, '/') + Split(key, '/')
  {
    SplitAround(currentPath, key, '/');
  }

  /** The writes extract_and_translate makes into `result`, in order: one
      (translated path, leaf) per leaf (neither dict nor list) below a non-empty
      traversal path whose translation differs from it. */
  function Writes(table: map<string, string>, data: Value, currentPath: string): seq<(string, Value)>
    decreases data, 1
  {
    match data
    case Struct(fields) => FieldWrites(table, data, |fields|, currentPath)
    case List(_) => []
    case _ =>
      if currentPath == "" then []
      else
        var translated := TranslatePath(table, currentPath);
        if translated != currentPath then [(translated, data)] else []
  }

  /** The writes below the first `n` entries of a dict. */
  function FieldWrites(table: map<string, string>, data: Value, n: nat, currentPath: string): seq<(string, Value)>
    requires data.Struct? && n <= |data.fields|
    decreases data, 0, n
  {
    if n == 0 then []
    else
      assert data.fields[n - 1] in data.fields;
      FieldWrites(table, data, n - 1, currentPath)
        + Writes(table, data.fields[n - 1].1, ChildPath(currentPath, data.fields[n - 1].0))
  }

  lemma FieldWritesStep(table: map<string, string>, data: Value, k: nat, currentPath: string)
    requires data.Struct? && k < |data.fields|
    ensures FieldWrites(table, data, k + 1, currentPath) ==
      FieldWrites(table, data, k, currentPath) + Writes(table, data.fields[k].1, ChildPath(currentPath, data.fields[k].0))
  {
  }

  /** result[path] = value, write after write. */
  function ApplyWrites(result: seq<(string, Value)>, writes: seq<(string, Value)>): seq<(string, Value)>
  {
    if |writes| == 0 then result
    else
      var last := writes[|writes| - 1];
      SetField(ApplyWrites(result, writes[..|writes| - 1]), last.0, last.1)
  }

  lemma {:induction false} ApplyWritesAppend(result: seq<(string, Value)>, a: seq<(string, Value)>, b: seq<(string, Value)>)
    ensures ApplyWrites(result, a + b) == ApplyWrites(ApplyWrites(result, a), b)
    decreases |b|
  {
    if |b| == 0 {
      assert a + b == a;
    } else {
      var n := |b| - 1;
      assert (a + b)[..|a + b| - 1] == a + b[..n];
      ApplyWritesAppend(result, a, b[..n]);
    }
  }

  /** extract_and_translate(data, current_path, result); the dict `result` is
      passed in and handed back. */
  method ExtractAndTranslate(table: map<string, string>, data: Value, currentPath: string, result: seq<(string, Value)>)
    returns (updated: seq<(string, Value)>)
    ensures updated == ApplyWrites(result, Writes(table, data, currentPath))
    ensures data.List? ==> updated == result
    decreases data, 1
  {
    updated := result;
    if data.Struct? {
      for k := 0 to |data.fields|
        invariant updated == ApplyWrites(result, FieldWrites(table, data, k, currentPath))
      {
        updated := ExtractField(table, data, k, currentPath, result, updated);
      }
    } else if !data.List? {
      if currentPath != "" {
        var translatedPath := TranslatePath(table, currentPath);
        if translatedPath != currentPath {
          updated := SetField(updated, translatedPath, data);
        }
      }
    }
  }

  /** One turn of the loop over a dict's entries: the entry's value is
      extracted under the child path. */
  method ExtractField(table: map<string, string>, data: Value, k: nat, currentPath: string,
                      result: seq<(string, Value)>, updated: seq<(string, Value)>)
    returns (next: seq<(string, Value)>)
    requires data.Struct? && k < |data.fields|
    requires updated == ApplyWrites(result, FieldWrites(table, data, k, currentPath))
    ensures next == ApplyWrites(result, FieldWrites(table, data, k + 1, currentPath))
    decreases data, 0
  {
    var key := data.fields[k].0;
    var value := data.fields[k].1;
    assert data.fields[k] in data.fields;
    var newPath := ChildPath(currentPath, key);
    next := ExtractAndTranslate(table, value, newPath, updated);
    ApplyWritesAppend(result, FieldWrites(table, data, k, currentPath), Writes(table, value, newPath));
    FieldWritesStep(table, data, k, currentPath);
  }

  /** Every write carries a leaf: neither a dict nor a list. */
  lemma {:induction false} WritesAreLeaves(table: map<string, string>, data: Value, currentPath: string)
    ensures forall w :: w in Writes(table, data, currentPath) ==> !w.1.Struct? && !w.1.List?
    decreases data, 1
  {
    if data.Struct? {
      FieldWritesAreLeaves(table, data, |data.fields|, currentPath);
    }
  }

  lemma {:induction false} FieldWritesAreLeaves(table: map<string, string>, data: Value, n: nat, currentPath: string)
    requires data.Struct? && n <= |data.fields|
    ensures forall w :: w in FieldWrites(table, data, n, currentPath) ==> !w.1.Struct? && !w.1.List?
    decreases data, 0, n
  {
    if n > 0 {
      assert data.fields[n - 1] in data.fields;
      FieldWritesAreLeaves(table, data, n - 1, currentPath);
      WritesAreLeaves(table, data.fields[n - 1].1, ChildPath(currentPath, data.fields[n - 1].0));
    }
  }

  /** No dict key at any depth has a '.'. */
  predicate DotFree(data: Value)
  {
    match data
    case Struct(fields) => forall i :: 0 <= i < |fields| ==> '.' !in fields[i].0 && DotFree(fields[i].1)
    case _ => true
  }

  /** With the shipped table and keys without '.', every write goes to a
      target of the table: only leaves whose path is a COVESA key are kept. */
  lemma {:induction false} WritesGoToTargets(data: Value, currentPath: string)
    requires DotFree(data) && '.' !in currentPath
    ensures forall w :: w in Writes(PathTranslationMap, data, currentPath) ==>
      IsTarget(w.0)
    decreases data, 1
  {
    if data.Struct? {
      FieldWritesGoToTargets(data, |data.fields|, currentPath);
    } else if !data.List? && currentPath != "" {
      TranslateChangesIff(currentPath);
      ReplaceAbsent(currentPath, '.', '/');
    }
  }

  /** The path is the target of some key of the shipped table. */
  predicate IsTarget(path: string)
  {
    exists k :: k in PathTranslationMap && PathTranslationMap[k] == path
  }

  lemma {:induction false} FieldWritesGoToTargets(data: Value, n: nat, currentPath: string)
    requires data.Struct? && n <= |data.fields|
    requires DotFree(data) && '.' !in currentPath
    ensures forall w :: w in FieldWrites(PathTranslationMap, data, n, currentPath) ==> IsTarget(w.0)
    decreases data, 0, n
  {
    if n > 0 {
      var key := data.fields[n - 1].0;
      assert data.fields[n - 1] in data.fields;
      FieldWritesGoToTargets(data, n - 1, currentPath);
      ChildPathDotFree(currentPath, key);
      WritesGoToTargets(data.fields[n - 1].1, ChildPath(currentPath, key));
      TargetsAppend(FieldWrites(PathTranslationMap, data, n - 1, currentPath),
        Writes(PathTranslationMap, data.fields[n - 1].1, ChildPath(currentPath, key)));
    }
  }

  lemma ChildPathDotFree(currentPath: string, key: string)
    requires '.' !in currentPath && '.' !in key
    ensures '.' !in ChildPath(currentPath, key)
  {
  }

  lemma TargetsAppend(before: seq<(string, Value)>, here: seq<(string, Value)>)
    requires forall w :: w in before ==> IsTarget(w.0)
    requires forall w :: w in here ==> IsTarget(w.0)
    ensures forall w :: w in before + here ==> IsTarget(w.0)
  {
  }

  /** The writes only ever add their own entries, and keep keys distinct. */
  lemma {:induction false} ApplyWritesEntries(result: seq<(string, Value)>, writes: seq<(string, Value)>)
    requires DistinctKeys(result)
    ensures DistinctKeys(ApplyWrites(result, writes))
    ensures forall e :: e in ApplyWrites(result, writes) ==> e in result || e in writes
  {
    if |writes| > 0 {
      var n := |writes| - 1;
      ApplyWritesEntries(result, writes[..n]);
      var before := ApplyWrites(result, writes[..n]);
      SetFieldDistinct(before, writes[n].0, writes[n].1);
      forall e | e in ApplyWrites(result, writes) ensures e in result || e in writes {
        if e != writes[n] {
          assert e in before;
        }
      }
    }
  }

  /** What process_shadow_update hands to the publisher, for keys without '.':
      distinct paths, each a target of the table, each holding a leaf. */
  lemma TranslatedData(data: Value)
    requires DotFree(data)
    ensures var translated := ApplyWrites([], Writes(PathTranslationMap, data, ""));
      && DistinctKeys(translated)
      && forall i :: 0 <= i < |translated| ==>
        IsTarget(translated[i].0) && !translated[i].1.Struct? && !translated[i].1.List?
  {
    var writes := Writes(PathTranslationMap, data, "");
    ApplyWritesEntries([], writes);
    WritesAreLeaves(PathTranslationMap, data, "");
    WritesGoToTargets(data, "");
    var translated := ApplyWrites([], writes);
    forall i | 0 <= i < |translated|
      ensures IsTarget(translated[i].0) && !translated[i].1.Struct? && !translated[i].1.List?
    {
      assert translated[i] in translated;
    }
  }

  // ---------------------------------------------------------------------------
  // publish_translated_data: the nested update
  // ---------------------------------------------------------------------------

  /** Setting a slash path's parts in a nested dict: each missing intermediate
      key gets an empty dict, an existing one must be a dict (otherwise Python
      raises TypeError: None here), and the last part is assigned. */
  function PutPath(node: seq<(string, Value)>, parts: seq<string>, value: Value): Option<seq<(string, Value)>>
    requires |parts| >= 1
    decreases |parts|
  {
    var key := parts[0];
    if |parts| == 1 then Some(SetField(node, key, value))
    else
      var child := FindField(node, key);
      if child.Some? && !child.value.Struct? then None
      else
        var inner := if child.None? then [] else child.value.fields;
        match PutPath(inner, parts[1..], value)
        case None => None
        case Some(f) => Some(SetField(node, key, Struct(f)))
  }

  /** Following the parts from a node down through nested dicts. */
  function GetPath(node: Value, parts: seq<string>): Option<Value>
    decreases |parts|
  {
    if |parts| == 0 then Some(node)
    else if !node.Struct? then None
    else
      match FindField(node.fields, parts[0])
      case None => None
      case Some(child) => GetPath(child, parts[1..])
  }

  /** The parts the nesting loop splits a path into. */
  function PathParts(path: string): (r: seq<string>)
    ensures |r| >= 1
  {
    Split(path, '/')
  }

  /** The whole nesting loop over the translated data, in its order; None when
      one of the paths raises. */
  function ShadowUpdate(data: seq<(string, Value)>): Option<seq<(string, Value)>>
  {
    if |data| == 0 then Some([])
    else
      match ShadowUpdate(data[..|data| - 1])
      case None => None
      case Some(shadow) => PutPath(shadow, PathParts(data[|data| - 1].0), data[|data| - 1].1)
  }

  /** The loop of publish_translated_data that builds shadow_update. */
  method BuildShadowUpdate(data: seq<(string, Value)>) returns (shadowUpdate: Option<seq<(string, Value)>>)
    ensures shadowUpdate == ShadowUpdate(data)
  {
    var shadow: seq<(string, Value)> := [];
    for k := 0 to |data|
      invariant ShadowUpdate(data[..k]) == Some(shadow)
    {
      assert data[..k + 1][..k] == data[..k];
      var parts := PathParts(data[k].0);
      var next := PutPath(shadow, parts, data[k].1);
      if next.None? {
        ShadowUpdateFailurePropagates(data, k + 1);
        return None;
      }
      shadow := next.value;
    }
    assert data[..|data|] == data;
    return Some(shadow);
  }

  lemma {:induction false} ShadowUpdateFailurePropagates(data: seq<(string, Value)>, n: nat)
    requires n <= |data|
    requires ShadowUpdate(data[..n]).None?
    ensures ShadowUpdate(data).None?
    decreases |data| - n
  {
    if n < |data| {
      assert data[..n + 1][..n] == data[..n];
      ShadowUpdateFailurePropagates(data, n + 1);
    } else {
      assert data[..n] == data;
    }
  }

  /** After the assignment the path reaches the value. */
  lemma {:induction false} PutPathReaches(node: seq<(string, Value)>, parts: seq<string>, value: Value)
    requires |parts| >= 1 && PutPath(node, parts, value).Some?
    ensures GetPath(Struct(PutPath(node, parts, value).value), parts) == Some(value)
    decreases |parts|
  {
    if |parts| > 1 {
      var child := FindField(node, parts[0]);
      var inner := if child.None? then [] else child.value.fields;
      PutPathReaches(inner, parts[1..], value);
    }
  }

  /** Paths that part ways somewhere: neither is a prefix of the other. */
  predicate Diverge(a: seq<string>, b: seq<string>)
  {
    exists i :: 0 <= i < |a| && i < |b| && a[i] != b[i]
  }

  /** A path that parts ways with the assigned one reaches what it reached. */
  lemma {:induction false} PutPathKeepsOthers(node: seq<(string, Value)>, parts: seq<string>, value: Value, other: seq<string>)
    requires |parts| >= 1 && PutPath(node, parts, value).Some?
    requires Diverge(parts, other)
    ensures GetPath(Struct(PutPath(node, parts, value).value), other) == GetPath(Struct(node), other)
    decreases |parts|
  {
    var key := parts[0];
    if other[0] == key {
      var i :| 0 <= i < |parts| && i < |other| && parts[i] != other[i];
      assert i > 0 && |parts| > 1;
      var child := FindField(node, key);
      var inner := if child.None? then [] else child.value.fields;
      assert parts[1..][i - 1] != other[1..][i - 1];
      PutPathKeepsOthers(inner, parts[1..], value, other[1..]);
    }
  }

  /** Every intermediate prefix of the parts is absent or a dict. */
  predicate Passable(node: seq<(string, Value)>, parts: seq<string>)
  {
    forall j :: 1 <= j < |parts| ==>
      GetPath(Struct(node), parts[..j]).None? || GetPath(Struct(node), parts[..j]).value.Struct?
  }

  /** The assignment succeeds exactly when no intermediate is a non-dict. */
  lemma {:induction false} PutPathSucceeds(node: seq<(string, Value)>, parts: seq<string>, value: Value)
    requires |parts| >= 1
    ensures PutPath(node, parts, value).Some? <==> Passable(node, parts)
    decreases |parts|
  {
    if |parts| > 1 {
      var child := FindField(node, parts[0]);
      assert GetPath(Struct(node), parts[..1]) == child by {
        assert parts[..1] == [parts[0]];
      }
      if child.None? || child.value.Struct? {
        var inner := if child.None? then [] else child.value.fields;
        PutPathSucceeds(inner, parts[1..], value);
        PassableStep(node, parts);
      }
    }
  }

  /** Below a first part that names no entry or a dict, the node is passable
      exactly when that dict (or an empty one) is passable for the rest. */
  lemma PassableStep(node: seq<(string, Value)>, parts: seq<string>)
    requires |parts| > 1
    requires FindField(node, parts[0]).None? || FindField(node, parts[0]).value.Struct?
    ensures var child := FindField(node, parts[0]);
      var inner := if child.None? then [] else child.value.fields;
      Passable(node, parts) <==> Passable(inner, parts[1..])
  {
    var child := FindField(node, parts[0]);
    var inner := if child.None? then [] else child.value.fields;
    assert GetPath(Struct(node), parts[..1]) == child by {
      assert parts[..1] == [parts[0]];
    }
    forall j | 1 <= j < |parts|
      ensures GetPath(Struct(node), parts[..j + 1]) == GetPath(Struct(inner), parts[1..][..j])
    {
      assert parts[..j + 1][1..] == parts[1..][..j];
    }
    if Passable(inner, parts[1..]) {
      forall j | 2 <= j < |parts|
        ensures GetPath(Struct(node), parts[..j]).None? || GetPath(Struct(node), parts[..j]).value.Struct?
      {
        assert GetPath(Struct(node), parts[..(j - 1) + 1]) == GetPath(Struct(inner), parts[1..][..j - 1]);
      }
    }
  }

  /** The assignment adds no new non-dict other than the value itself. */
  lemma {:induction false} PutPathNewLeaves(node: seq<(string, Value)>, parts: seq<string>, value: Value, other: seq<string>)
    requires |parts| >= 1 && PutPath(node, parts, value).Some? && !value.Struct?
    requires GetPath(Struct(PutPath(node, parts, value).value), other).Some?
    requires !GetPath(Struct(PutPath(node, parts, value).value), other).value.Struct?
    ensures other == parts ||
      GetPath(Struct(node), other) == GetPath(Struct(PutPath(node, parts, value).value), other)
    decreases |parts|
  {
    var key := parts[0];
    if other[0] == key && |parts| > 1 {
      var child := FindField(node, key);
      var inner := if child.None? then [] else child.value.fields;
      assert |other| > 1;
      PutPathDescend(node, parts, value, other);
      PutPathNewLeaves(inner, parts[1..], value, other[1..]);
      if other[1..] == parts[1..] {
        assert other == [key] + other[1..];
        assert parts == [key] + parts[1..];
      }
    } else if other[0] == key {
      assert |other| == 1;
      assert other == parts;
    }
  }

  /** One level down the nesting loop: below a shared first part, reading
      before and after the write is reading in the child dict. */
  lemma PutPathDescend(node: seq<(string, Value)>, parts: seq<string>, value: Value, other: seq<string>)
    requires |parts| > 1 && |other| > 1 && other[0] == parts[0] && PutPath(node, parts, value).Some?
    ensures var child := FindField(node, parts[0]);
      var inner := if child.None? then [] else child.value.fields;
      && PutPath(inner, parts[1..], value).Some?
      && GetPath(Struct(PutPath(node, parts, value).value), other)
        == GetPath(Struct(PutPath(inner, parts[1..], value).value), other[1..])
      && GetPath(Struct(node), other) == GetPath(Struct(inner), other[1..])
  {
  }

  /** The segment sequence `a` is a prefix of `b`. */
  predicate IsPrefix(a: seq<string>, b: seq<string>)
  {
    |a| <= |b| && b[..|a|] == a
  }

  lemma DivergeOfNoPrefix(a: seq<string>, b: seq<string>)
    requires !IsPrefix(a, b) && !IsPrefix(b, a)
    ensures Diverge(a, b)
  {
    if |a| <= |b| {
      var i :| 0 <= i < |a| && b[..|a|][i] != a[i];
    } else {
      var i :| 0 <= i < |b| && a[..|b|][i] != b[i];
    }
  }

  /** When no path's parts are a prefix of another path's parts and no value
      is a dict, the nesting loop succeeds, every path's parts reach its value,
      and every non-dict in the update sits at one of the paths. */
  lemma {:induction false} ShadowUpdateReaches(data: seq<(string, Value)>)
    requires forall i :: 0 <= i < |data| ==> !data[i].1.Struct?
    requires forall i, j :: 0 <= i < |data| && 0 <= j < |data| && i != j ==>
      !IsPrefix(PathParts(data[i].0), PathParts(data[j].0))
    ensures ShadowUpdate(data).Some?
    ensures forall i :: 0 <= i < |data| ==>
      GetPath(Struct(ShadowUpdate(data).value), PathParts(data[i].0)) == Some(data[i].1)
    ensures forall other ::
      (GetPath(Struct(ShadowUpdate(data).value), other).Some? &&
       !GetPath(Struct(ShadowUpdate(data).value), other).value.Struct?) ==>
        exists i :: 0 <= i < |data| && other == PathParts(data[i].0)
  {
    if |data| > 0 {
      var n := |data| - 1;
      var init := data[..n];
      assert forall i :: 0 <= i < n ==> init[i] == data[i];
      ShadowUpdateReaches(init);
      var shadow := ShadowUpdate(init).value;
      var parts := PathParts(data[n].0);
      var value := data[n].1;
      NewPathClear(data, init, shadow);
      PutPathSucceeds(shadow, parts, value);
      var updated := PutPath(shadow, parts, value).value;
      assert ShadowUpdate(data) == Some(updated);
      PutPathReaches(shadow, parts, value);
      OldPathsKept(data, shadow);
      NewLeavesKnown(data, init, shadow);
    }
  }

  /** The nesting loop's step for the last path: no earlier path ends where
      the new one needs a dict. */
  lemma NewPathClear(data: seq<(string, Value)>, init: seq<(string, Value)>, shadow: seq<(string, Value)>)
    requires |data| > 0 && init == data[..|data| - 1]
    requires forall i, j :: 0 <= i < |data| && 0 <= j < |data| && i != j ==>
      !IsPrefix(PathParts(data[i].0), PathParts(data[j].0))
    requires forall other ::
      (GetPath(Struct(shadow), other).Some? && !GetPath(Struct(shadow), other).value.Struct?) ==>
        exists i :: 0 <= i < |init| && other == PathParts(init[i].0)
    ensures var parts := PathParts(data[|data| - 1].0);
      Passable(shadow, parts)
  {
    var n := |data| - 1;
    var parts := PathParts(data[n].0);
    forall j | 1 <= j < |parts|
      ensures GetPath(Struct(shadow), parts[..j]).None? || GetPath(Struct(shadow), parts[..j]).value.Struct?
    {
      if GetPath(Struct(shadow), parts[..j]).Some? && !GetPath(Struct(shadow), parts[..j]).value.Struct? {
        var i :| 0 <= i < n && parts[..j] == PathParts(init[i].0);
        assert false;
      }
    }
  }

  /** The nesting loop's step for the last path keeps every earlier path's
      value in place. */
  lemma OldPathsKept(data: seq<(string, Value)>, shadow: seq<(string, Value)>)
    requires |data| > 0 && !data[|data| - 1].1.Struct?
    requires forall i, j :: 0 <= i < |data| && 0 <= j < |data| && i != j ==>
      !IsPrefix(PathParts(data[i].0), PathParts(data[j].0))
    requires PutPath(shadow, PathParts(data[|data| - 1].0), data[|data| - 1].1).Some?
    requires forall i :: 0 <= i < |data| - 1 ==>
      GetPath(Struct(shadow), PathParts(data[i].0)) == Some(data[i].1)
    ensures forall i :: 0 <= i < |data| - 1 ==>
      GetPath(Struct(PutPath(shadow, PathParts(data[|data| - 1].0), data[|data| - 1].1).value),
        PathParts(data[i].0)) == Some(data[i].1)
  {
    var n := |data| - 1;
    var parts := PathParts(data[n].0);
    forall i | 0 <= i < n
      ensures GetPath(Struct(PutPath(shadow, parts, data[n].1).value), PathParts(data[i].0)) == Some(data[i].1)
    {
      var mine := PathParts(data[i].0);
      assert !IsPrefix(parts, mine) && !IsPrefix(mine, parts) by {
        assert i != n;
      }
      DivergeOfNoPrefix(parts, mine);
      PutPathKeepsOthers(shadow, parts, data[n].1, mine);
    }
  }

  /** After the nesting loop's step for the last path, every non-dict sits at
      the new path or at one that was there before. */
  lemma NewLeavesKnown(data: seq<(string, Value)>, init: seq<(string, Value)>, shadow: seq<(string, Value)>)
    requires |data| > 0 && init == data[..|data| - 1] && !data[|data| - 1].1.Struct?
    requires PutPath(shadow, PathParts(data[|data| - 1].0), data[|data| - 1].1).Some?
    requires forall other ::
      (GetPath(Struct(shadow), other).Some? && !GetPath(Struct(shadow), other).value.Struct?) ==>
        exists i :: 0 <= i < |init| && other == PathParts(init[i].0)
    ensures var updated := PutPath(shadow, PathParts(data[|data| - 1].0), data[|data| - 1].1).value;
      forall other ::
        (GetPath(Struct(updated), other).Some? && !GetPath(Struct(updated), other).value.Struct?) ==>
          exists i :: 0 <= i < |data| && other == PathParts(data[i].0)
  {
    var n := |data| - 1;
    var parts := PathParts(data[n].0);
    var updated := PutPath(shadow, parts, data[n].1).value;
    forall other | GetPath(Struct(updated), other).Some? && !GetPath(Struct(updated), other).value.Struct?
      ensures exists i :: 0 <= i < |data| && other == PathParts(data[i].0)
    {
      PutPathNewLeaves(shadow, parts, data[n].1, other);
      if other != parts {
        var i :| 0 <= i < n && other == PathParts(init[i].0);
        assert init[i] == data[i];
      }
    }
  }

  // ---------------------------------------------------------------------------
  // process_shadow_update end to end, for the shipped table
  // ---------------------------------------------------------------------------

  /** Splitting at a first '/' whose left side has no '/'. */
  lemma SplitFirst(x: string, y: string)
    requires '/' !in x
    ensures PathParts(x + "/" + y) == [x] + PathParts(y)
  {
    SplitAround(x, y, '/');
    SplitNoSeparator(x, '/');
  }

  /** The '/'-separated parts of the four targets. */
  lemma TargetParts()
    ensures PathParts(SpeedTarget) == ["Vehicle", "EgoVehicle", "Motion", "Locomotion", "Speed"]
    ensures PathParts(LatitudeTarget) == ["Vehicle", "EgoVehicle", "General", "State", "CurrentLocation", "Latitude"]
    ensures PathParts(LongitudeTarget) == ["Vehicle", "EgoVehicle", "General", "State", "CurrentLocation", "Longitude"]
    ensures PathParts(AltitudeTarget) == ["Vehicle", "EgoVehicle", "General", "State", "CurrentLocation", "Altitude"]
  {
    FiveParts("Vehicle", "EgoVehicle", "Motion", "Locomotion", "Speed");
    SixParts("Vehicle", "EgoVehicle", "General", "State", "CurrentLocation", "Latitude");
    SixParts("Vehicle", "EgoVehicle", "General", "State", "CurrentLocation", "Longitude");
    SixParts("Vehicle", "EgoVehicle", "General", "State", "CurrentLocation", "Altitude");
  }

  /** The parts of a path of five or six '/'-free names. */
  lemma FiveParts(a: string, b: string, c: string, d: string, e: string)
    requires '/' !in a && '/' !in b && '/' !in c && '/' !in d && '/' !in e
    ensures PathParts(a + "/" + b + "/" + c + "/" + d + "/" + e) == [a, b, c, d, e]
  {
    SplitNoSeparator(e, '/');
    SplitFirst(d, e);
    SplitFirst(c, d + "/" + e);
    assert c + "/" + d + "/" + e == c + "/" + (d + "/" + e);
    SplitFirst(b, c + "/" + d + "/" + e);
    assert b + "/" + c + "/" + d + "/" + e == b + "/" + (c + "/" + d + "/" + e);
    SplitFirst(a, b + "/" + c + "/" + d + "/" + e);
    assert a + "/" + b + "/" + c + "/" + d + "/" + e == a + "/" + (b + "/" + c + "/" + d + "/" + e);
  }

  lemma SixParts(a: string, b: string, c: string, d: string, e: string, f: string)
    requires '/' !in a && '/' !in b && '/' !in c && '/' !in d && '/' !in e && '/' !in f
    ensures PathParts(a + "/" + b + "/" + c + "/" + d + "/" + e + "/" + f) == [a, b, c, d, e, f]
  {
    FiveParts(b, c, d, e, f);
    SplitFirst(a, b + "/" + c + "/" + d + "/" + e + "/" + f);
    assert a + "/" + b + "/" + c + "/" + d + "/" + e + "/" + f == a + "/" + (b + "/" + c + "/" + d + "/" + e + "/" + f);
  }

  /** No target's parts are a prefix of another target's parts, so no
      published leaf sits where another one needs a dict. */
  lemma TargetsNotPrefixes(a: string, b: string)
    requires IsTarget(a) && IsTarget(b) && a != b
    ensures !IsPrefix(PathParts(a), PathParts(b))
  {
    TargetParts();
    var ka :| ka in PathTranslationMap && PathTranslationMap[ka] == a;
    var kb :| kb in PathTranslationMap && PathTranslationMap[kb] == b;
    assert a in {SpeedTarget, LatitudeTarget, LongitudeTarget, AltitudeTarget};
    assert b in {SpeedTarget, LatitudeTarget, LongitudeTarget, AltitudeTarget};
    var pa, pb := PathParts(a), PathParts(b);
    if |pa| <= |pb| {
      if pa[2] != pb[2] {
        assert pb[..|pa|][2] != pa[2];
      } else {
        assert pb[..|pa|][|pa| - 1] != pa[|pa| - 1];
      }
    }
  }

  /** What process_shadow_update publishes for keys without '.': the nesting
      never raises, and every translated path reaches its leaf in the nested
      update. */
  lemma PublishedUpdateReaches(data: Value)
    requires DotFree(data)
    ensures var translated := ApplyWrites([], Writes(PathTranslationMap, data, ""));
      && ShadowUpdate(translated).Some?
      && forall i :: 0 <= i < |translated| ==>
        GetPath(Struct(ShadowUpdate(translated).value), PathParts(translated[i].0)) == Some(translated[i].1)
  {
    var translated := ApplyWrites([], Writes(PathTranslationMap, data, ""));
    TranslatedData(data);
    forall i, j | 0 <= i < |translated| && 0 <= j < |translated| && i != j
      ensures !IsPrefix(PathParts(translated[i].0), PathParts(translated[j].0))
    {
      if i < j {
        assert translated[i].0 != translated[j].0;
      } else {
        assert translated[j].0 != translated[i].0;
      }
      TargetsNotPrefixes(translated[i].0, translated[j].0);
    }
    ShadowUpdateReaches(translated);
  }
}
