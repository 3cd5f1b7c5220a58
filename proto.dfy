/** The wire types: google.protobuf.Value (the JSON-like dynamic value the
    broker speaks), the grpc::Status of a finished call, and the duo messages
    the adapter builds or reads. */
module Proto {
  import opened Wrappers

  /** A double on the wire: a finite number, an infinity or NaN. */
  datatype Double = Finite(r: real) | PosInf | NegInf | NaN

  /** google.protobuf.Value. A Struct's map is kept as its entries in iteration
      order; protobuf guarantees the keys are distinct (see WellFormed). */
  datatype Value =
    | Null
    | Bool(b: bool)
    | Number(n: Double)
    | Str(s: string)
    | List(items: seq<Value>)
    | Struct(fields: seq<(string, Value)>)
    | Unset // no kind set (KIND_NOT_SET): none of the has_*_value tests holds

  /** Struct.fields().find(key). */
  function FindField(fields: seq<(string, Value)>, key: string): (r: Option<Value>)
    ensures r.None? ==> forall i :: 0 <= i < |fields| ==> fields[i].0 != key
    ensures r.Some? ==> exists i :: 0 <= i < |fields| && fields[i] == (key, r.value)
  {
    if |fields| == 0 then None
    else if fields[0].0 == key then Some(fields[0].1)
    else
      var r := FindField(fields[1..], key);
      assert r.Some? ==> exists i :: 1 <= i < |fields| && fields[i] == (key, r.value) by {
        if r.Some? {
          var i :| 0 <= i < |fields[1..]| && fields[1..][i] == (key, r.value);
          assert fields[i + 1] == (key, r.value);
        }
      }
      r
  }

  predicate DistinctKeys(fields: seq<(string, Value)>)
  {
    forall i, j :: 0 <= i < j < |fields| ==> fields[i].0 != fields[j].0
  }

  /** With distinct keys, find returns the value stored under the key. */
  lemma FindDistinct(fields: seq<(string, Value)>, i: nat)
    requires DistinctKeys(fields) && i < |fields|
    ensures FindField(fields, fields[i].0) == Some(fields[i].1)
  {
    var r := FindField(fields, fields[i].0);
    var j :| 0 <= j < |fields| && fields[j] == (fields[i].0, r.value);
    assert i == j;
  }

  /** fields[key] = value on a protobuf map or a Python dict: the entry under
      `key` is replaced where it stands, or appended when the key is new. */
  function SetField(fields: seq<(string, Value)>, key: string, value: Value): (r: seq<(string, Value)>)
    ensures FindField(r, key) == Some(value)
    ensures forall k :: k != key ==> FindField(r, k) == FindField(fields, k)
    ensures |r| == (if FindField(fields, key).Some? then |fields| else |fields| + 1)
    ensures forall i :: 0 <= i < |r| ==> r[i] == (key, value) || r[i] in fields
  {
    if |fields| == 0 then [(key, value)]
    else if fields[0].0 == key then [(key, value)] + fields[1..]
    else [fields[0]] + SetField(fields[1..], key, value)
  }

  lemma {:induction false} SetFieldDistinct(fields: seq<(string, Value)>, key: string, value: Value)
    requires DistinctKeys(fields)
    ensures DistinctKeys(SetField(fields, key, value))
  {
    if |fields| > 0 && fields[0].0 != key {
      SetFieldDistinct(fields[1..], key, value);
      var rest := SetField(fields[1..], key, value);
      forall i | 0 <= i < |rest| ensures rest[i].0 != fields[0].0 {
        if rest[i] in fields[1..] {
          var j :| 0 <= j < |fields[1..]| && fields[1..][j] == rest[i];
          assert fields[j + 1] == rest[i];
        }
      }
    }
  }

  /** A value protobuf can hold: every nested struct has distinct keys. */
  predicate WellFormed(v: Value)
  {
    match v
    case List(items) => forall i :: 0 <= i < |items| ==> WellFormed(items[i])
    case Struct(fields) =>
      DistinctKeys(fields) && forall i :: 0 <= i < |fields| ==> WellFormed(fields[i].1)
    case _ => true
  }

  /** grpc::Status of a finished call. */
  datatype GrpcStatus = GrpcStatus(ok: bool, errorMessage: string)

  /** duo::GetReportRequest: which thing, and the slash-separated path to read. */
  datatype GetReportRequest = GetReportRequest(thing: string, path: string)

  /** duo::GetResponse: the read value, when the broker sent one. */
  datatype GetResponse = GetResponse(item: Option<Value>)

  /** duo::CreateJobRequest: the thing and the job document (a Struct). */
  datatype CreateJobRequest = CreateJobRequest(thing: string, document: Value)

  /** duo::CreateJobResponse; the adapter reads nothing from it. */
  datatype CreateJobResponse = CreateJobResponse

  /** duo::ListenReportRequest. */
  datatype ListenReportRequest = ListenReportRequest(thing: string, needsInitialValue: bool, filters: seq<string>)

  /** duo::ListenResponse: the values of one streamed update. */
  datatype ListenResponse = ListenResponse(items: seq<Value>)
}
