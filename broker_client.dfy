/** BrokerClient: the data-broker client over the duo facade. It shapes what
    the facade delivers into DataPointReply values: a read becomes one reply
    keyed by the first requested path, a set becomes an ordered path-to-value
    map, and each streamed update is flattened into one reply per leaf. */
module BrokerClient {
  import opened Wrappers
  import opened Strings
  import opened OrderedMap
  import opened Proto
  import opened DataPointValues
  import opened DataPointReplies
  import opened TypeConverter
  import BrokerFacade

  // ---------------------------------------------------------------------------
  // joinPathSegments
  // ---------------------------------------------------------------------------

  /** The non-empty segments joined by '/'. */
  function JoinedPath(segments: seq<string>): string
  {
    Join('/', NonEmpty(segments))
  }

  /** No leading or trailing '/', and no two '/' in a row. */
  predicate WellShaped(path: string)
  {
    path == "" ||
    (path[0] != '/' && path[|path| - 1] != '/' &&
     forall i :: 0 <= i < |path| - 1 ==> !(path[i] == '/' && path[i + 1] == '/'))
  }

  method JoinPathSegments(segments: seq<string>) returns (path: string)
    ensures path == JoinedPath(segments)
    ensures (forall k :: 0 <= k < |segments| ==> '/' !in segments[k]) ==> WellShaped(path)
  {
    path := "";
    for k := 0 to |segments|
      invariant path == JoinedPath(segments[..k])
    {
      var done := NonEmpty(segments[..k]);
      assert segments[..k + 1] == segments[..k] + [segments[k]];
      NonEmptyConcat(segments[..k], [segments[k]]);
      assert [segments[k]][1..] == [];
      assert NonEmpty([segments[k]]) == (if segments[k] == "" then [] else [segments[k]]);
      if segments[k] == "" {
        assert NonEmpty(segments[..k + 1]) == done;
        continue;
      }
      assert NonEmpty(segments[..k + 1]) == done + [segments[k]];
      NonEmptyParts(segments[..k]);
      JoinOfNonEmptyParts('/', done);
      if path != "" {
        JoinSnoc('/', done, segments[k]);
        path := path + "/";
      } else {
        assert done + [segments[k]] == [segments[k]];
      }
      path := path + segments[k];
    }
    assert segments[..|segments|] == segments;
    if forall k :: 0 <= k < |segments| ==> '/' !in segments[k] {
      NonEmptyParts(segments);
      JoinWellShaped(NonEmpty(segments));
    }
  }

  /** Joining non-empty parts gives "" only when there are no parts. */
  lemma JoinOfNonEmptyParts(sep: char, parts: seq<string>)
    requires forall k :: 0 <= k < |parts| ==> parts[k] != ""
    ensures Join(sep, parts) == "" <==> |parts| == 0
  {
  }

  /** Joining non-empty '/'-free parts with '/' gives a well-shaped path. */
  lemma {:induction false} JoinWellShaped(parts: seq<string>)
    requires forall k :: 0 <= k < |parts| ==> parts[k] != "" && '/' !in parts[k]
    ensures WellShaped(Join('/', parts))
  {
    if |parts| > 1 {
      JoinWellShaped(parts[1..]);
      var head := parts[0];
      var tail := Join('/', parts[1..]);
      JoinOfNonEmptyParts('/', parts[1..]);
      var s := head + ['/'] + tail;
      assert Join('/', parts) == s;
      assert s[0] == head[0];
      assert s[|s| - 1] == tail[|tail| - 1];
      forall i | 0 <= i < |s| - 1 ensures !(s[i] == '/' && s[i + 1] == '/') {
        if i < |head| {
          assert s[i] == head[i];
        } else if i == |head| {
          assert s[i + 1] == tail[0];
        } else {
          assert s[i] == tail[i - |head| - 1] && s[i + 1] == tail[i - |head|];
        }
      }
    }
  }

  /** Splitting a joined path at '/' gives back the non-empty segments. */
  lemma JoinedPathSplits(segments: seq<string>)
    requires forall k :: 0 <= k < |segments| ==> '/' !in segments[k]
    requires JoinedPath(segments) != ""
    ensures Split(JoinedPath(segments), '/') == NonEmpty(segments)
  {
    NonEmptyParts(segments);
    SplitJoin(NonEmpty(segments), '/');
  }

  // ---------------------------------------------------------------------------
  // valueToString and convertDuoResponseToDataPointValue
  // ---------------------------------------------------------------------------

  /** valueToString, used for logging; `format` is fmt's rendering of a double. */
  function ValueToString(v: Value, format: Double -> string): (r: string)
    ensures v.Str? ==> r == v.s
    ensures v.Number? ==> r == format(v.n)
    ensures v.Bool? ==> r == (if v.b then "true" else "false")
    ensures v.Null? ==> r == "null"
    ensures v.List? || v.Struct? || v.Unset? ==> r == ""
  {
    match v
    case Str(s) => s
    case Number(n) => format(n)
    case Bool(b) => if b then "true" else "false"
    case Null => "null"
    case _ => ""
  }

  /** The log rendering agrees with the converter's string coercion on strings
      and bools, and differs on null ("null" against ""). */
  lemma ValueToStringAgainstConvertToString(v: Value, env: NumberText)
    ensures v.Str? || v.Bool? ==> ConvertToString(v, env) == Success(ValueToString(v, (n: Double) => ""))
    ensures v.Null? ==> ConvertToString(v, env) == Success("") && ValueToString(v, (n: Double) => "") == "null"
  {
  }

  const UnsupportedResponseMessage := "Unsupported value type in Duo response"

  /** convertDuoResponseToDataPointValue: the value's own kind picks the type;
      a number is a double, and null a NOT_AVAILABLE double. */
  function ConvertDuoResponse(path: string, v: Value): (r: Result<DataPointValue, Error>)
    ensures r.Success? <==> !v.List? && !v.Struct? && !v.Unset?
    ensures r.Success? ==> r.value.path == path && r.value.dtype.Scalar?
    ensures r.Failure? ==> r.error == InvalidValue(UnsupportedResponseMessage)
  {
    match v
    case Str(s) => Success(DataPointValue(path, Scalar(StringT), Holds(One(StringElem(s)))))
    case Bool(b) => Success(DataPointValue(path, Scalar(BoolT), Holds(One(BoolElem(b)))))
    case Number(n) => Success(DataPointValue(path, Scalar(DoubleT), Holds(One(RealElem(n)))))
    case Null => Success(DataPointValue(path, Scalar(DoubleT), Failed(NotAvailable)))
    case _ => Failure(InvalidValue(UnsupportedResponseMessage))
  }

  /** The element type convertDuoResponseToDataPointValue picks for a value. */
  function ResponseType(v: Value): ElemType
  {
    if v.Str? then StringT else if v.Bool? then BoolT else DoubleT
  }

  /** The guessed conversion is the typed decoding under the guessed type; a
      value with no kind fails both ways (with different messages). */
  lemma ConvertDuoResponseIsDecode(path: string, v: Value, env: NumberText)
    requires !v.List? && !v.Struct?
    ensures !v.Unset? ==> ConvertDuoResponse(path, v) == Decode(path, Scalar(ResponseType(v)), v, env)
    ensures v.Unset? ==> ConvertDuoResponse(path, v).Failure? && Decode(path, Scalar(ResponseType(v)), v, env).Failure?
  {
  }

  // ---------------------------------------------------------------------------
  // collectValuePaths
  // ---------------------------------------------------------------------------

  /** The non-struct values reachable from `v` through struct fields, each with
      its key path below `prefix`, in field order; a non-struct value with no
      key path above it yields nothing. */
  function Leaves(v: Value, prefix: seq<string>): seq<(seq<string>, Value)>
    decreases v, 1
  {
    if v.Struct? then FieldLeaves(v, |v.fields|, prefix)
    else if |prefix| == 0 then []
    else [(prefix, v)]
  }

  /** The leaves below the first `n` fields of a struct. */
  function FieldLeaves(v: Value, n: nat, prefix: seq<string>): seq<(seq<string>, Value)>
    requires v.Struct? && n <= |v.fields|
    decreases v, 0, n
  {
    if n == 0 then []
    else FieldLeaves(v, n - 1, prefix) + Leaves(v.fields[n - 1].1, prefix + [v.fields[n - 1].0])
  }

  /** Key paths rendered as joinPathSegments renders them. */
  function Labelled(entries: seq<(seq<string>, Value)>): seq<(string, Value)>
  {
    seq(|entries|, i requires 0 <= i < |entries| => (JoinedPath(entries[i].0), entries[i].1))
  }

  function PathsOf(pairs: seq<(string, Value)>): seq<string>
  {
    seq(|pairs|, i requires 0 <= i < |pairs| => pairs[i].0)
  }

  lemma LabelledAppend(a: seq<(seq<string>, Value)>, b: seq<(seq<string>, Value)>)
    ensures Labelled(a + b) == Labelled(a) + Labelled(b)
    ensures PathsOf(Labelled(a + b)) == PathsOf(Labelled(a)) + PathsOf(Labelled(b))
  {
    assert Labelled(a + b) == Labelled(a) + Labelled(b);
  }

  /** collectValuePaths: the current key path, the path list and the leaf list
      are passed in and handed back, as the references of the original are. */
  method CollectValuePaths(value: Value, currentPath: seq<string>, pathList: seq<string>, leafValues: seq<(string, Value)>)
    returns (currentPathOut: seq<string>, pathListOut: seq<string>, leafValuesOut: seq<(string, Value)>)
    ensures currentPathOut == currentPath
    ensures leafValuesOut == leafValues + Labelled(Leaves(value, currentPath))
    ensures pathListOut == pathList + PathsOf(Labelled(Leaves(value, currentPath)))
    decreases value, 1
  {
    if value.Struct? {
      currentPathOut, pathListOut, leafValuesOut := currentPath, pathList, leafValues;
      for i := 0 to |value.fields|
        invariant currentPathOut == currentPath
        invariant leafValuesOut == leafValues + Labelled(FieldLeaves(value, i, currentPath))
        invariant pathListOut == pathList + PathsOf(Labelled(FieldLeaves(value, i, currentPath)))
      {
        currentPathOut, pathListOut, leafValuesOut :=
          CollectField(value, i, currentPathOut, pathList, leafValues, pathListOut, leafValuesOut);
      }
      return;
    }
    currentPathOut, pathListOut, leafValuesOut := currentPath, pathList, leafValues;
    if |currentPath| > 0 {
      var path := JoinPathSegments(currentPath);
      pathListOut := pathListOut + [path];
      leafValuesOut := leafValuesOut + [(path, value)];
    }
  }

  /** One turn of the loop over a struct's fields: the key is pushed onto the
      current path, the field's value is collected, and the key is popped. */
  method CollectField(value: Value, i: nat, currentPath: seq<string>, pathList: seq<string>, leafValues: seq<(string, Value)>,
                      pathListSoFar: seq<string>, leafValuesSoFar: seq<(string, Value)>)
    returns (currentPathOut: seq<string>, pathListOut: seq<string>, leafValuesOut: seq<(string, Value)>)
    requires value.Struct? && i < |value.fields|
    requires leafValuesSoFar == leafValues + Labelled(FieldLeaves(value, i, currentPath))
    requires pathListSoFar == pathList + PathsOf(Labelled(FieldLeaves(value, i, currentPath)))
    ensures currentPathOut == currentPath
    ensures leafValuesOut == leafValues + Labelled(FieldLeaves(value, i + 1, currentPath))
    ensures pathListOut == pathList + PathsOf(Labelled(FieldLeaves(value, i + 1, currentPath)))
    decreases value, 0
  {
    var key := value.fields[i].0;
    var path := currentPath + [key];
    assert value.fields[i] in value.fields;
    var pushed;
    pushed, pathListOut, leafValuesOut := CollectValuePaths(value.fields[i].1, path, pathListSoFar, leafValuesSoFar);
    // the pop gives the caller its path back
    currentPathOut := pushed[..|pushed| - 1];
    LabelledAppend(FieldLeaves(value, i, currentPath), Leaves(value.fields[i].1, path));
  }

  /** A struct key a path can name unambiguously: non-empty, without '.' or '/'. */
  predicate PlainKey(key: string)
  {
    key != "" && '.' !in key && '/' !in key
  }

  /** Every key of every nested struct is plain. */
  predicate PlainKeys(v: Value)
  {
    match v
    case Struct(fields) => forall i :: 0 <= i < |fields| ==> PlainKey(fields[i].0) && PlainKeys(fields[i].1)
    case _ => true
  }

  /** What an entry of Leaves(v, prefix) is: a non-struct value, under a key
      path that extends `prefix`, reached from `v` by walking the extension. */
  ghost predicate LeafOf(v: Value, prefix: seq<string>, e: (seq<string>, Value))
  {
    && |prefix| <= |e.0| && e.0[..|prefix|] == prefix
    && !e.1.Struct?
    && (WellFormed(v) ==> Walk(v, e.0, |prefix|) == Some(e.1))
    && (PlainKeys(v) ==> forall j :: |prefix| <= j < |e.0| ==> PlainKey(e.0[j]))
  }

  lemma {:induction false} LeavesAreLeaves(v: Value, prefix: seq<string>)
    ensures forall e :: e in Leaves(v, prefix) ==> LeafOf(v, prefix, e)
    ensures v.Struct? ==> forall e :: e in Leaves(v, prefix) ==> |e.0| > |prefix|
    decreases v, 1
  {
    if v.Struct? {
      FieldLeavesAreLeaves(v, |v.fields|, prefix);
    }
  }

  lemma {:induction false} FieldLeavesAreLeaves(v: Value, n: nat, prefix: seq<string>)
    requires v.Struct? && n <= |v.fields|
    ensures forall e :: e in FieldLeaves(v, n, prefix) ==> LeafOf(v, prefix, e) && |e.0| > |prefix|
    decreases v, 0, n
  {
    if n > 0 {
      FieldLeavesAreLeaves(v, n - 1, prefix);
      var key := v.fields[n - 1].0;
      var child := v.fields[n - 1].1;
      assert v.fields[n - 1] in v.fields;
      LeavesAreLeaves(child, prefix + [key]);
      forall e | e in Leaves(child, prefix + [key])
        ensures LeafOf(v, prefix, e) && |e.0| > |prefix|
      {
        ChildLeafIsLeaf(v, n - 1, prefix, e);
      }
    }
  }

  /** A leaf below one field of a struct is a leaf of the struct. */
  lemma ChildLeafIsLeaf(v: Value, i: nat, prefix: seq<string>, e: (seq<string>, Value))
    requires v.Struct? && i < |v.fields|
    requires LeafOf(v.fields[i].1, prefix + [v.fields[i].0], e)
    ensures LeafOf(v, prefix, e) && |e.0| > |prefix|
  {
    var key := v.fields[i].0;
    var child := v.fields[i].1;
    var k := |prefix|;
    assert v.fields[i] in v.fields;
    assert e.0[..k + 1] == prefix + [key];
    assert e.0[..k] == (prefix + [key])[..k] == prefix;
    assert e.0[k] == key;
    if WellFormed(v) {
      FindDistinct(v.fields, i);
      assert AccessField(v.fields, e.0[k]) == Some(child);
    }
  }

  /** Every path collectValuePaths reports for a struct leads back to its leaf:
      turned into a dotted path and located with locateLeaf, it names exactly
      that leaf (when the payload's keys are plain). */
  lemma ReportedPathsResolve(v: Value)
    requires v.Struct? && WellFormed(v) && PlainKeys(v)
    ensures forall e :: e in Labelled(Leaves(v, [])) ==>
      !e.1.Struct? && Locate(v, Segments(Replace(e.0, '/', '.'))) == Some(e.1)
  {
    LeavesAreLeaves(v, []);
    var leaves := Leaves(v, []);
    forall e | e in Labelled(leaves)
      ensures !e.1.Struct? && Locate(v, Segments(Replace(e.0, '/', '.'))) == Some(e.1)
    {
      var i :| 0 <= i < |leaves| && Labelled(leaves)[i] == e;
      var keys := leaves[i].0;
      assert leaves[i] in leaves;
      assert forall j :: 0 <= j < |keys| ==> PlainKey(keys[j]);
      NonEmptyOfNonEmpty(keys);
      ReplaceJoin(keys, '/', '.');
      SegmentsOfJoin(keys);
    }
  }

  /** How many non-struct values hang below `v` (v itself, when not a struct). */
  function LeafCount(v: Value): nat
    decreases v, 1
  {
    if v.Struct? then FieldsLeafCount(v, |v.fields|) else 1
  }

  function FieldsLeafCount(v: Value, n: nat): nat
    requires v.Struct? && n <= |v.fields|
    decreases v, 0, n
  {
    if n == 0 then 0 else FieldsLeafCount(v, n - 1) + LeafCount(v.fields[n - 1].1)
  }

  /** One entry per leaf; a non-struct root without a key path gives none. */
  lemma {:induction false} LeavesCount(v: Value, prefix: seq<string>)
    ensures |Leaves(v, prefix)| == (if !v.Struct? && |prefix| == 0 then 0 else LeafCount(v))
    decreases v, 1
  {
    if v.Struct? {
      FieldLeavesCount(v, |v.fields|, prefix);
    }
  }

  lemma {:induction false} FieldLeavesCount(v: Value, n: nat, prefix: seq<string>)
    requires v.Struct? && n <= |v.fields|
    ensures |FieldLeaves(v, n, prefix)| == FieldsLeafCount(v, n)
    decreases v, 0, n
  {
    if n > 0 {
      FieldLeavesCount(v, n - 1, prefix);
      assert v.fields[n - 1] in v.fields;
      LeavesCount(v.fields[n - 1].1, prefix + [v.fields[n - 1].0]);
    }
  }

  // ---------------------------------------------------------------------------
  // Results and subscriptions the client hands out
  // ---------------------------------------------------------------------------

  datatype AsyncState<T> = Pending | Resolved(value: T) | Errored(message: string)

  /** AsyncResult: pending until a result or an error is inserted. */
  class AsyncResult<T> {
    var state: AsyncState<T>

    constructor ()
      ensures state == Pending
    {
      state := Pending;
    }

    method InsertResult(value: T)
      modifies this
      ensures state == Resolved(value)
    {
      state := Resolved(value);
    }

    method InsertError(message: string)
      modifies this
      ensures state == Errored(message)
    {
      state := Errored(message);
    }
  }

  /** AsyncSubscription: the items and errors inserted so far, in order. */
  class AsyncSubscription {
    var items: seq<DataPointReply>
    var errors: seq<string>

    constructor ()
      ensures items == [] && errors == []
    {
      items := [];
      errors := [];
    }

    method InsertNewItem(item: DataPointReply)
      modifies this
      ensures items == old(items) + [item] && errors == old(errors)
    {
      items := items + [item];
    }

    method InsertError(message: string)
      modifies this
      ensures errors == old(errors) + [message] && items == old(items)
    {
      errors := errors + [message];
    }
  }

  /** The Status message a failed RPC resolves to. */
  function RpcFailure(rpc: string, status: GrpcStatus): string
  {
    "RPC '" + rpc + "' failed: " + status.errorMessage
  }

  /** IVehicleDataBrokerClient::SetErrorMap_t: path to error message. */
  type SetErrorMap = map<string, string>

  // ---------------------------------------------------------------------------
  // getDatapoints
  // ---------------------------------------------------------------------------

  /** The data points of a read reply: only the first requested path, and only
      when the response has an item that converts. */
  function GetReplyMap(path: string, response: GetResponse): map<string, DataPointValue>
  {
    if response.item.Some? && ConvertDuoResponse(path, response.item.value).Success? then
      map[path := ConvertDuoResponse(path, response.item.value).value]
    else map[]
  }

  /** The reply never holds a path other than the first requested one, holds
      it exactly when the item is present and of a convertible kind, and a
      conversion failure only leaves the map empty. */
  lemma GetReplyMapKeys(path: string, response: GetResponse)
    ensures forall p :: p in GetReplyMap(path, response) ==> p == path
    ensures path in GetReplyMap(path, response) <==>
      response.item.Some? && !response.item.value.List? && !response.item.value.Struct? &&
      !response.item.value.Unset?
    ensures path in GetReplyMap(path, response) ==>
      GetReplyMap(path, response)[path].path == path
  {
  }

  /** getDatapoints up to dispatch: a pending result, and the facade call (none
      for an empty list, so the result then never resolves). */
  method GetDatapoints(datapoints: seq<string>)
    returns (result: AsyncResult<DataPointReply>, call: BrokerFacade.UnaryCall?<GetReportRequest, GetResponse>)
    ensures fresh(result) && result.state == Pending
    ensures call == null <==> |datapoints| == 0
    ensures call != null ==> fresh(call) && Some(call.request) == BrokerFacade.GetRequest(datapoints)
  {
    result := new AsyncResult();
    call := BrokerFacade.GetDatapoints(datapoints);
  }

  /** The reply handler of getDatapoints, without the unused log-text trimming
      (see OnGetReplyAsWritten): the result always resolves, to a reply holding
      the converted first path and the raw response. */
  method OnGetReply(path: string, response: GetResponse, result: AsyncResult<DataPointReply>)
    modifies result
    ensures result.state.Resolved?
    ensures fresh(result.state.value)
    ensures result.state.value.dataPointsMap == GetReplyMap(path, response)
    ensures result.state.value.duoGetResponse == response
  {
    var dataPoints: map<string, DataPointValue> := map[];
    if response.item.Some? {
      var converted := ConvertDuoResponse(path, response.item.value);
      if converted.Success? {
        dataPoints := dataPoints[path := converted.value];
      }
    }
    var reply := new DataPointReply.FromMap(dataPoints);
    reply.SetDuoGetResponse(response);
    result.InsertResult(reply);
  }

  /** The completion of a dispatched read: the call completes, and the result
      resolves on an ok status and fails with the RPC's message otherwise. */
  method CompleteGet(datapoints: seq<string>, call: BrokerFacade.UnaryCall<GetReportRequest, GetResponse>,
                     status: GrpcStatus, response: GetResponse, result: AsyncResult<DataPointReply>)
    requires |datapoints| > 0
    requires status.ok ==> call.response == Some(response)
    modifies call, result
    ensures call.isComplete
    ensures call.handled == old(call.handled) + [if status.ok then BrokerFacade.ReplyHandler else BrokerFacade.ErrorHandler]
    ensures call.request == old(call.request) && call.response == old(call.response)
    ensures status.ok ==>
      (result.state.Resolved? &&
       result.state.value.dataPointsMap == GetReplyMap(datapoints[0], response) &&
       result.state.value.duoGetResponse == response)
    ensures !status.ok ==> result.state == Errored(RpcFailure("GetDatapoints", status))
  {
    var ran := call.OnComplete(status);
    if ran == BrokerFacade.ReplyHandler {
      OnGetReply(datapoints[0], response, result);
    } else {
      result.InsertError(RpcFailure("GetDatapoints", status));
    }
  }

  // The log-text trimming of the read reply handler, as written

  /** `pattern` starts at position `j` of `s`. */
  predicate OccursAt(s: string, pattern: string, j: nat)
  {
    j + |pattern| <= |s| && s[j..j + |pattern|] == pattern
  }

  /** std::string::find(pattern, from): the first position at or after `from`
      where `pattern` starts, or none (npos). */
  function FindText(s: string, pattern: string, from: nat): (r: Option<nat>)
    ensures r.Some? ==> from <= r.value && OccursAt(s, pattern, r.value)
    ensures r.Some? ==> forall j :: from <= j < r.value ==> !OccursAt(s, pattern, j)
    ensures r.None? ==> forall j :: from <= j ==> !OccursAt(s, pattern, j)
    decreases |s| - from
  {
    if from + |pattern| > |s| then None
    else if s[from..from + |pattern|] == pattern then Some(from)
    else FindText(s, pattern, from + 1)
  }

  /** size_t arithmetic: std::string::npos plus an offset wraps around. */
  const SizeModulus: int := 0x1_0000_0000_0000_0000
  const Npos: int := SizeModulus - 1

  /** str.substr(str.find("item ") + 5): None when substr throws
      std::out_of_range because the start lies past the end. npos + 5 exceeds
      the range of size_t once, so it wraps around by one modulus. */
  function TrimAfterItem(text: string): Option<string>
  {
    var found := FindText(text, "item ", 0);
    var start := if found.Some? then found.value + 5 else Npos + 5 - SizeModulus;
    if start > |text| then None else Some(text[start..])
  }

  /** The protobuf text rendering (DebugString) of a GetResponse, given the
      rendering of its item's body: empty for a message with no field set. */
  function DebugText(response: GetResponse, itemBody: string): string
  {
    if response.item.None? then "" else "item {\n" + itemBody + "}\n"
  }

  /** The reply handler of getDatapoints as written: the trimming comes first,
      and when it throws the exception leaves the handler before the result is
      set (the facade's completion lambda catches and logs it). */
  method OnGetReplyAsWritten(path: string, response: GetResponse, itemBody: string, result: AsyncResult<DataPointReply>)
    modifies result
    ensures TrimAfterItem(DebugText(response, itemBody)).None? ==> result.state == old(result.state)
    ensures TrimAfterItem(DebugText(response, itemBody)).Some? ==>
      result.state.Resolved? && result.state.value.dataPointsMap == GetReplyMap(path, response)
  {
    var trimmed := TrimAfterItem(DebugText(response, itemBody));
    if trimmed.None? {
      return;
    }
    OnGetReply(path, response, result);
  }

  /** Finding: a read answered without an item never resolves. Its DebugString
      is empty, "item " is not found, npos + 5 wraps to 4, and substr(4) of an
      empty string throws; the branch that would deliver an empty reply is
      never reached. With an item the trimming succeeds. */
  lemma ReplyWithoutItemNeverResolves(itemBody: string, value: Value)
    ensures TrimAfterItem(DebugText(GetResponse(None), itemBody)).None?
    ensures TrimAfterItem(DebugText(GetResponse(Some(value)), itemBody)).Some?
  {
    var text := DebugText(GetResponse(Some(value)), itemBody);
    assert text[0..5] == "item ";
  }

  /** The trimming throws exactly when the text has no "item " and is shorter
      than the four characters the wrapped-around start skips. */
  lemma TrimAfterItemThrows(text: string)
    ensures TrimAfterItem(text).None? <==> FindText(text, "item ", 0).None? && |text| < 4
  {
    var found := FindText(text, "item ", 0);
    if found.Some? {
      assert found.value + 5 <= |text|;
    } else {
      assert Npos + 5 - SizeModulus == 4;
    }
  }

  // ---------------------------------------------------------------------------
  // setDatapoints
  // ---------------------------------------------------------------------------

  /** The path-to-value map of a set: each data point encoded in turn and
      emplaced (a later duplicate path is dropped); the first encoding that
      throws is thrown. The encoder is a parameter so that the map's laws below
      hold whatever it does; setDatapoints uses toDuoValue (EncodeAll). */
  function EmplaceAll(encode: DataPointValue -> Result<Value, Error>, datapoints: seq<DataPointValue>)
    : (r: Result<seq<(string, Value)>, Error>)
    ensures r.Success? ==> Sorted(r.value)
  {
    if |datapoints| == 0 then Success([])
    else
      match EmplaceAll(encode, datapoints[..|datapoints| - 1])
      case Failure(e) => Failure(e)
      case Success(m) =>
        var last := datapoints[|datapoints| - 1];
        match encode(last)
        case Failure(e) => Failure(e)
        case Success(v) => Success(Emplace(m, last.path, v))
  }

  function EncodeAll(datapoints: seq<DataPointValue>): Result<seq<(string, Value)>, Error>
  {
    EmplaceAll(Encode, datapoints)
  }

  /** The set fails exactly when some data point does not encode. */
  lemma EmplaceAllSucceeds(encode: DataPointValue -> Result<Value, Error>, datapoints: seq<DataPointValue>)
    ensures EmplaceAll(encode, datapoints).Success? <==> forall i :: 0 <= i < |datapoints| ==> encode(datapoints[i]).Success?
  {
    if forall i :: 0 <= i < |datapoints| ==> encode(datapoints[i]).Success? {
      EmplaceAllOfEncodable(encode, datapoints);
    } else {
      var i :| 0 <= i < |datapoints| && encode(datapoints[i]).Failure?;
      EmplaceAllFailsAt(encode, datapoints, i);
    }
  }

  lemma {:induction false} EmplaceAllOfEncodable(encode: DataPointValue -> Result<Value, Error>, datapoints: seq<DataPointValue>)
    requires forall i :: 0 <= i < |datapoints| ==> encode(datapoints[i]).Success?
    ensures EmplaceAll(encode, datapoints).Success?
  {
    if |datapoints| > 0 {
      var n := |datapoints| - 1;
      var init := datapoints[..n];
      forall i | 0 <= i < n ensures encode(init[i]).Success? {
        assert init[i] == datapoints[i];
      }
      EmplaceAllOfEncodable(encode, init);
      EmplaceAllStepSucceeds(encode, datapoints);
    }
  }

  lemma {:induction false} EmplaceAllFailsAt(encode: DataPointValue -> Result<Value, Error>, datapoints: seq<DataPointValue>, i: nat)
    requires i < |datapoints| && encode(datapoints[i]).Failure?
    ensures EmplaceAll(encode, datapoints).Failure?
  {
    var n := |datapoints| - 1;
    var init := datapoints[..n];
    EmplaceAllStepSucceeds(encode, datapoints);
    if i < n {
      assert init[i] == datapoints[i];
      EmplaceAllFailsAt(encode, init, i);
    } else {
      assert i == n;
    }
  }

  /** One step of the fold succeeds exactly when the previous steps and the
      last encoding do. */
  lemma EmplaceAllStepSucceeds(encode: DataPointValue -> Result<Value, Error>, datapoints: seq<DataPointValue>)
    requires |datapoints| > 0
    ensures EmplaceAll(encode, datapoints).Success? <==>
      EmplaceAll(encode, datapoints[..|datapoints| - 1]).Success? && encode(datapoints[|datapoints| - 1]).Success?
  {
  }

  /** One step of the fold: a successful map is the previous map with the last
      data point's encoding emplaced. */
  lemma EmplaceAllStep(encode: DataPointValue -> Result<Value, Error>, datapoints: seq<DataPointValue>)
    requires |datapoints| > 0 && EmplaceAll(encode, datapoints).Success?
    ensures EmplaceAll(encode, datapoints[..|datapoints| - 1]).Success?
    ensures encode(datapoints[|datapoints| - 1]).Success?
    ensures EmplaceAll(encode, datapoints).value ==
      Emplace(EmplaceAll(encode, datapoints[..|datapoints| - 1]).value, datapoints[|datapoints| - 1].path,
        encode(datapoints[|datapoints| - 1]).value)
  {
  }

  /** The paths of the data points, in order. */
  function PointPaths(datapoints: seq<DataPointValue>): (r: seq<string>)
    ensures |r| == |datapoints| && forall i :: 0 <= i < |r| ==> r[i] == datapoints[i].path
  {
    seq(|datapoints|, i requires 0 <= i < |datapoints| => datapoints[i].path)
  }

  /** The map holds exactly the paths of the data points. */
  lemma {:induction false} EmplaceAllKeys(encode: DataPointValue -> Result<Value, Error>, datapoints: seq<DataPointValue>, key: string)
    requires EmplaceAll(encode, datapoints).Success?
    ensures Lookup(EmplaceAll(encode, datapoints).value, key).Some? <==> key in PointPaths(datapoints)
  {
    if |datapoints| > 0 {
      var n := |datapoints| - 1;
      var init := datapoints[..n];
      EmplaceAllKeys(encode, init, key);
      EmplaceAllStep(encode, datapoints);
      var m := EmplaceAll(encode, init).value;
      var last := datapoints[n];
      var r := Emplace(m, last.path, encode(last).value);
      assert PointPaths(datapoints) == PointPaths(init) + [last.path];
      if key == last.path {
        assert Lookup(r, key).Some?;
      } else {
        assert Lookup(r, key) == Lookup(m, key);
      }
    }
  }

  /** A path keeps the encoding of the first data point that carries it:
      emplace does not overwrite. */
  lemma {:induction false} EmplaceAllFirstWins(encode: DataPointValue -> Result<Value, Error>, datapoints: seq<DataPointValue>, i: nat)
    requires EmplaceAll(encode, datapoints).Success?
    requires i < |datapoints|
    requires datapoints[i].path !in PointPaths(datapoints[..i])
    ensures encode(datapoints[i]).Success?
    ensures Lookup(EmplaceAll(encode, datapoints).value, datapoints[i].path) == Some(encode(datapoints[i]).value)
  {
    EmplaceAllSucceeds(encode, datapoints);
    EmplaceAllStep(encode, datapoints);
    var n := |datapoints| - 1;
    var init := datapoints[..n];
    var last := datapoints[n];
    if i < n {
      assert init[i] == datapoints[i];
      assert init[..i] == datapoints[..i];
      EmplaceAllFirstWins(encode, init, i);
    } else {
      assert init == datapoints[..i];
      EmplaceAllKeys(encode, init, last.path);
    }
  }

  /** setDatapoints up to dispatch: the encodings are built first, and an
      encoding that throws leaves setDatapoints before anything is dispatched. */
  method SetDatapoints(datapoints: seq<DataPointValue>)
    returns (thrown: Option<Error>, result: AsyncResult?<SetErrorMap>,
             call: BrokerFacade.UnaryCall?<CreateJobRequest, CreateJobResponse>)
    ensures thrown.Some? <==> EncodeAll(datapoints).Failure?
    ensures thrown.Some? ==> thrown.value == EncodeAll(datapoints).error && call == null
    ensures thrown.None? ==> result != null && fresh(result) && result.state == Pending
    ensures thrown.None? ==> (call == null <==> |datapoints| == 0)
    ensures thrown.None? && call != null ==>
      fresh(call) && Some(call.request) == BrokerFacade.SetRequest(EncodeAll(datapoints).value)
  {
    var encoded := EncodeDatapoints(datapoints);
    if encoded.Failure? {
      return Some(encoded.error), null, null;
    }
    result := new AsyncResult();
    thrown := None;
    call := BrokerFacade.SetDatapoints(encoded.value);
    EmplaceAllNonEmpty(Encode, datapoints);
  }

  /** The loop of setDatapoints that fills the path-to-value map: toDuoValue on
      each data point, emplaced under its path; the first failure is thrown. */
  method EncodeDatapoints(datapoints: seq<DataPointValue>) returns (r: Result<seq<(string, Value)>, Error>)
    ensures r == EncodeAll(datapoints)
  {
    var entries: seq<(string, Value)> := [];
    for k := 0 to |datapoints|
      invariant EncodeAll(datapoints[..k]) == Success(entries)
    {
      assert datapoints[..k + 1][..k] == datapoints[..k];
      var encoded := ToDuoValue(datapoints[k]);
      if encoded.Failure? {
        EmplaceAllFailurePropagates(Encode, datapoints, k + 1);
        return Failure(encoded.error);
      }
      entries := Emplace(entries, datapoints[k].path, encoded.value);
    }
    assert datapoints[..|datapoints|] == datapoints;
    return Success(entries);
  }

  lemma {:induction false} EmplaceAllFailurePropagates(encode: DataPointValue -> Result<Value, Error>, datapoints: seq<DataPointValue>, n: nat)
    requires n <= |datapoints|
    requires EmplaceAll(encode, datapoints[..n]).Failure?
    ensures EmplaceAll(encode, datapoints) == EmplaceAll(encode, datapoints[..n])
    decreases |datapoints| - n
  {
    if n < |datapoints| {
      assert datapoints[..n + 1][..n] == datapoints[..n];
      EmplaceAllFailurePropagates(encode, datapoints, n + 1);
    } else {
      assert datapoints[..n] == datapoints;
    }
  }

  /** The encoded map is empty only for an empty list of data points. */
  lemma EmplaceAllNonEmpty(encode: DataPointValue -> Result<Value, Error>, datapoints: seq<DataPointValue>)
    requires EmplaceAll(encode, datapoints).Success?
    ensures |EmplaceAll(encode, datapoints).value| == 0 <==> |datapoints| == 0
  {
    if |datapoints| > 0 {
      EmplaceAllKeys(encode, datapoints, datapoints[0].path);
      assert PointPaths(datapoints)[0] == datapoints[0].path;
    }
  }

  /** The reply handler of setDatapoints as written, given the text rendering
      (DebugString) of the CreateJobResponse: the same trimming as the read's
      comes first, and when it throws the result is never set. */
  method OnSetReplyAsWritten(responseText: string, result: AsyncResult<SetErrorMap>)
    modifies result
    ensures TrimAfterItem(responseText).None? ==> result.state == old(result.state)
    ensures TrimAfterItem(responseText).Some? ==> result.state == Resolved(map[])
  {
    var trimmed := TrimAfterItem(responseText);
    if trimmed.None? {
      return;
    }
    result.InsertResult(map[]);
  }

  /** The completion of a dispatched set, without the unused log-text trimming
      (see OnSetReplyAsWritten): an empty error map on an ok status, the RPC's
      message otherwise. */
  method CompleteSet(call: BrokerFacade.UnaryCall<CreateJobRequest, CreateJobResponse>,
                     status: GrpcStatus, result: AsyncResult<SetErrorMap>)
    modifies call, result
    ensures call.isComplete
    ensures call.handled == old(call.handled) + [if status.ok then BrokerFacade.ReplyHandler else BrokerFacade.ErrorHandler]
    ensures call.request == old(call.request) && call.response == old(call.response)
    ensures status.ok ==> result.state == Resolved(map[])
    ensures !status.ok ==> result.state == Errored(RpcFailure("SetDatapoints", status))
  {
    var ran := call.OnComplete(status);
    if ran == BrokerFacade.ReplyHandler {
      result.InsertResult(map[]);
    } else {
      result.InsertError(RpcFailure("SetDatapoints", status));
    }
  }

  // ---------------------------------------------------------------------------
  // subscribe
  // ---------------------------------------------------------------------------

  /** The (path, leaf) entries one streamed item contributes: a number or a
      string under the subscribed query, a struct one entry per leaf, anything
      else nothing. */
  function ItemEntries(item: Value, query: string): seq<(string, Value)>
  {
    if item.Number? || item.Str? then [(query, item)]
    else if item.Struct? then Labelled(Leaves(item, []))
    else []
  }

  /** The entries of a whole update, item after item. */
  function StreamEntries(items: seq<Value>, query: string): seq<(string, Value)>
  {
    if |items| == 0 then []
    else StreamEntries(items[..|items| - 1], query) + ItemEntries(items[|items| - 1], query)
  }

  /** One item contributes no struct: a struct item is flattened down to its
      leaves, and bool, null and list items contribute nothing at all. */
  lemma ItemEntriesHaveNoStruct(item: Value, query: string)
    ensures !(item.Number? || item.Str? || item.Struct?) ==> ItemEntries(item, query) == []
    ensures forall e :: e in ItemEntries(item, query) ==> !e.1.Struct?
  {
    if item.Struct? {
      LeavesAreLeaves(item, []);
      forall e | e in Labelled(Leaves(item, [])) ensures !e.1.Struct? {
        var i :| 0 <= i < |Leaves(item, [])| && Labelled(Leaves(item, []))[i] == e;
        assert Leaves(item, [])[i] in Leaves(item, []);
      }
    }
  }

  /** No entry of an update carries a struct. */
  lemma {:induction false} StreamEntriesHaveNoStruct(items: seq<Value>, query: string)
    ensures forall e :: e in StreamEntries(items, query) ==> !e.1.Struct?
  {
    if |items| > 0 {
      var n := |items| - 1;
      StreamEntriesHaveNoStruct(items[..n], query);
      ItemEntriesHaveNoStruct(items[n], query);
    }
  }

  /** subscribe up to dispatch: the query goes out in duo form as the only filter. */
  method Subscribe(query: string) returns (subscription: AsyncSubscription, call: BrokerFacade.StreamCall)
    ensures fresh(subscription) && subscription.items == [] && subscription.errors == []
    ensures fresh(call) && call.request == BrokerFacade.SubscribeRequest([Replace(query, '.', '/')])
    ensures call.request.filters == [Replace(query, '.', '/')]
  {
    subscription := new AsyncSubscription();
    var target := ToDuoPath(query);
    call := BrokerFacade.Subscribe([target]);
    BrokerFacade.SubscribeFilterOfDuoTarget(query);
  }

  /** The first half of subscribe's stream handler: the (path, leaf) list of
      one update, with collectValuePaths run on each struct item from an empty
      key path (the path list it fills is shared and never read). */
  method FlattenUpdate(query: string, items: seq<Value>) returns (pathValueList: seq<(string, Value)>)
    ensures pathValueList == StreamEntries(items, query)
    ensures forall e :: e in pathValueList ==> !e.1.Struct?
  {
    var pathList: seq<string> := [];
    pathValueList := [];
    for k := 0 to |items|
      invariant pathValueList == StreamEntries(items[..k], query)
    {
      assert items[..k + 1][..k] == items[..k];
      var value := items[k];
      if value.Number? {
        pathValueList := pathValueList + [(query, value)];
      } else if value.Str? {
        pathValueList := pathValueList + [(query, value)];
      } else if value.Struct? {
        var currentPath: seq<string> := [];
        var leafValues: seq<(string, Value)> := [];
        currentPath, pathList, leafValues := CollectValuePaths(value, currentPath, pathList, leafValues);
        for j := 0 to |leafValues|
          invariant pathValueList == StreamEntries(items[..k], query) + leafValues[..j]
        {
          assert leafValues[..j + 1] == leafValues[..j] + [leafValues[j]];
          pathValueList := pathValueList + [leafValues[j]];
        }
        assert leafValues[..|leafValues|] == leafValues;
      }
    }
    assert items[..|items|] == items;
    StreamEntriesHaveNoStruct(items, query);
  }

  /** The stream handler of subscribe: one new reply per entry of the update,
      in order, each holding only the raw response whose item is the entry's
      leaf (the entry's path is not stored in the reply). */
  method OnSubscribeData(query: string, response: ListenResponse, subscription: AsyncSubscription)
    modifies subscription
    ensures |subscription.items| >= |old(subscription.items)|
    ensures subscription.items[..|old(subscription.items)|] == old(subscription.items)
    ensures Carries(subscription.items[|old(subscription.items)|..], StreamEntries(response.items, query))
    ensures forall reply :: reply in subscription.items[|old(subscription.items)|..] ==> fresh(reply)
    ensures subscription.errors == old(subscription.errors)
  {
    var pathValueList := FlattenUpdate(query, response.items);
    DeliverAll(pathValueList, subscription);
  }

  /** The replies stand for the entries one to one: each is a default reply
      (no data-point map) holding its entry's value as the duo response. */
  ghost predicate Carries(replies: seq<DataPointReply>, entries: seq<(string, Value)>)
    reads set reply | reply in replies
  {
    && |replies| == |entries|
    && forall k :: 0 <= k < |entries| ==>
         replies[k].duoGetResponse == GetResponse(Some(entries[k].1)) && replies[k].dataPointsMap == map[]
  }

  /** One default reply per entry, holding the entry's value as its duo
      response, appended in order. */
  method DeliverAll(entries: seq<(string, Value)>, subscription: AsyncSubscription)
    modifies subscription
    ensures |subscription.items| >= |old(subscription.items)|
    ensures subscription.items[..|old(subscription.items)|] == old(subscription.items)
    ensures Carries(subscription.items[|old(subscription.items)|..], entries)
    ensures forall reply :: reply in subscription.items[|old(subscription.items)|..] ==> fresh(reply)
    ensures subscription.errors == old(subscription.errors)
  {
    ghost var replies: seq<DataPointReply> := [];
    for k := 0 to |entries|
      invariant subscription.items == old(subscription.items) + replies
      invariant |replies| == k
      invariant subscription.errors == old(subscription.errors)
      invariant Carries(replies, entries[..k])
      invariant forall reply :: reply in replies ==> fresh(reply)
    {
      var reply := DeliverValue(entries[k].1, subscription);
      replies := replies + [reply];
    }
    assert entries[..|entries|] == entries;
    assert subscription.items[|old(subscription.items)|..] == replies;
  }

  /** One reply of the subscription: a default reply holding `value` as its
      duo response, inserted into the subscription. */
  method DeliverValue(value: Value, subscription: AsyncSubscription) returns (reply: DataPointReply)
    modifies subscription
    ensures fresh(reply) && reply.duoGetResponse == GetResponse(Some(value)) && reply.dataPointsMap == map[]
    ensures subscription.items == old(subscription.items) + [reply]
    ensures subscription.errors == old(subscription.errors)
  {
    reply := new DataPointReply();
    reply.SetDuoGetResponse(GetResponse(Some(value)));
    subscription.InsertNewItem(reply);
  }

  /** The end of the stream: an error only for a status that is not ok. */
  method FinishSubscribe(call: BrokerFacade.StreamCall, status: GrpcStatus, subscription: AsyncSubscription)
    modifies call, subscription
    ensures call.isComplete
    ensures call.errors == old(call.errors) + (if status.ok then [] else [status])
    ensures call.delivered == old(call.delivered) && call.request == old(call.request)
    ensures subscription.errors == old(subscription.errors) + (if status.ok then [] else [RpcFailure("Subscribe", status)])
    ensures subscription.items == old(subscription.items)
  {
    var errorRan := call.OnFinish(status);
    if errorRan {
      subscription.InsertError(RpcFailure("Subscribe", status));
    }
  }
}
