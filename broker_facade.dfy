/** BrokerAsyncGrpcFacade: turns the client's paths and values into duo
    requests, registers one call per request, and dispatches the call's
    completion to the reply or the error handler. The transport itself (stubs,
    channel, context metadata) is not modelled: a returned call object stands
    for a request that was issued. */
module BrokerFacade {
  import opened Wrappers
  import opened Strings
  import opened OrderedMap
  import opened Proto
  import TypeConverter

  /** The duo "thing" every request names. */
  const Thing := "vss"

  /** Which handler a completed unary call ran. */
  datatype Handler = ReplyHandler | ErrorHandler

  /** GrpcSingleResponseCall: the request, the response the transport fills in,
      the completion flag, and the handlers the completion lambda has run. */
  class UnaryCall<Req, Resp> {
    var request: Req
    var response: Option<Resp>
    var isComplete: bool
    var handled: seq<Handler>

    constructor (initial: Req)
      ensures request == initial && response == None && !isComplete && handled == []
    {
      request := initial;
      response := None;
      isComplete := false;
      handled := [];
    }

    /** The completion lambda: the reply handler for an ok status, the error
        handler otherwise. Whatever the handler throws is caught and logged, so
        the call is marked complete in every case. */
    method OnComplete(status: GrpcStatus) returns (ran: Handler)
      modifies this
      ensures ran == (if status.ok then ReplyHandler else ErrorHandler)
      ensures handled == old(handled) + [ran]
      ensures isComplete
      ensures request == old(request) && response == old(response)
    {
      if status.ok {
        ran := ReplyHandler;
      } else {
        ran := ErrorHandler;
      }
      handled := handled + [ran];
      isComplete := true;
    }
  }

  /** GrpcStreamingResponseCall: the request, the responses handed to the stream
      handler, the statuses handed to the error handler, and the completion flag. */
  class StreamCall {
    var request: ListenReportRequest
    var delivered: seq<ListenResponse>
    var errors: seq<GrpcStatus>
    var isComplete: bool

    constructor (initial: ListenReportRequest)
      ensures request == initial && delivered == [] && errors == [] && !isComplete
    {
      request := initial;
      delivered := [];
      errors := [];
      isComplete := false;
    }

    /** onData: every response goes to the stream handler. */
    method OnData(response: ListenResponse)
      modifies this
      ensures delivered == old(delivered) + [response]
      ensures errors == old(errors) && isComplete == old(isComplete) && request == old(request)
    {
      delivered := delivered + [response];
    }

    /** onFinish: the error handler only for a status that is not ok; the call
        is complete either way. */
    method OnFinish(status: GrpcStatus) returns (errorRan: bool)
      modifies this
      ensures errorRan <==> !status.ok
      ensures errors == old(errors) + (if status.ok then [] else [status])
      ensures isComplete
      ensures delivered == old(delivered) && request == old(request)
    {
      errorRan := !status.ok;
      if errorRan {
        errors := errors + [status];
      }
      isComplete := true;
    }
  }

  // ---------------------------------------------------------------------------
  // The requests
  // ---------------------------------------------------------------------------

  /** The GetReport request for a list of paths: none for an empty list,
      otherwise only the first path, in duo form. */
  function GetRequest(datapoints: seq<string>): (r: Option<GetReportRequest>)
    ensures r.None? <==> |datapoints| == 0
    ensures r.Some? ==> r.value.thing == Thing && '.' !in r.value.path && |r.value.path| == |datapoints[0]|
    ensures r.Some? ==> r.value.path == Replace(datapoints[0], '.', '/')
  {
    if |datapoints| == 0 then None
    else Some(GetReportRequest(Thing, Replace(datapoints[0], '.', '/')))
  }

  /** The job document of a set: exactly the fields action, target and value. */
  function SetDocument(target: string, value: Value): Value
  {
    Struct(SetField(SetField(SetField([], "action", Str("set")), "target", Str(target)), "value", value))
  }

  /** The CreateJob request for an ordered path-to-value map: none for an empty
      map, otherwise a document for the first entry, whose key is kept dotted. */
  function SetRequest(entries: seq<(string, Value)>): (r: Option<CreateJobRequest>)
    requires Sorted(entries)
    ensures r.None? <==> |entries| == 0
    ensures r.Some? ==> r.value.thing == Thing && r.value.document.Struct?
    ensures r.Some? ==> FindField(r.value.document.fields, "action") == Some(Str("set"))
    ensures r.Some? ==> FindField(r.value.document.fields, "target") == Some(Str(entries[0].0))
    ensures r.Some? ==> FindField(r.value.document.fields, "value") == Some(entries[0].1)
    ensures r.Some? ==> forall i :: 0 < i < |entries| ==> Less(entries[0].0, entries[i].0)
  {
    if |entries| == 0 then None
    else Some(CreateJobRequest(Thing, SetDocument(entries[0].0, entries[0].1)))
  }

  /** The ListenReport request: initial value wanted, and one filter (the first
      target in duo form) when there is a target at all. */
  function SubscribeRequest(targets: seq<string>): (r: ListenReportRequest)
    ensures r.thing == Thing && r.needsInitialValue
    ensures |r.filters| == (if |targets| == 0 then 0 else 1)
    ensures |targets| > 0 ==> r.filters == [Replace(targets[0], '.', '/')]
  {
    ListenReportRequest(Thing, true, if |targets| == 0 then [] else [Replace(targets[0], '.', '/')])
  }

  // ---------------------------------------------------------------------------
  // The facade operations: build the request, register the call
  // ---------------------------------------------------------------------------

  /** GetDatapoints: nothing is dispatched (null) for an empty list. */
  method GetDatapoints(datapoints: seq<string>) returns (call: UnaryCall?<GetReportRequest, GetResponse>)
    ensures call == null <==> |datapoints| == 0
    ensures call != null ==>
      fresh(call) && Some(call.request) == GetRequest(datapoints) && !call.isComplete && call.handled == []
  {
    if |datapoints| == 0 {
      return null;
    }
    var path := TypeConverter.ToDuoPath(datapoints[0]);
    call := new UnaryCall(GetReportRequest("", ""));
    call.request := call.request.(thing := Thing);
    call.request := call.request.(path := path);
  }

  /** SetDatapoints: nothing is dispatched (null) for an empty map. */
  method SetDatapoints(entries: seq<(string, Value)>) returns (call: UnaryCall?<CreateJobRequest, CreateJobResponse>)
    requires Sorted(entries)
    ensures call == null <==> |entries| == 0
    ensures call != null ==>
      fresh(call) && Some(call.request) == SetRequest(entries) && !call.isComplete && call.handled == []
  {
    if |entries| == 0 {
      return null;
    }
    var first := entries[0];
    call := new UnaryCall(CreateJobRequest("", Null));
    call.request := call.request.(thing := Thing);
    var fields: seq<(string, Value)> := [];
    fields := SetField(fields, "action", Str("set"));
    fields := SetField(fields, "target", Str(first.0));
    fields := SetField(fields, "value", first.1);
    call.request := call.request.(document := Struct(fields));
  }

  /** Subscribe: always dispatched. */
  method Subscribe(targets: seq<string>) returns (call: StreamCall)
    ensures fresh(call) && call.request == SubscribeRequest(targets)
    ensures call.delivered == [] && call.errors == [] && !call.isComplete
  {
    var request := ListenReportRequest("", false, []);
    request := request.(thing := Thing);
    request := request.(needsInitialValue := true);
    if |targets| > 0 {
      var filter := TypeConverter.ToDuoPath(targets[0]);
      request := request.(filters := request.filters + [filter]);
    }
    call := new StreamCall(request);
  }

  // ---------------------------------------------------------------------------
  // Properties of the requests
  // ---------------------------------------------------------------------------

  /** Only the first path matters: lists with the same first path give the
      same request. */
  lemma GetRequestUsesFirstPathOnly(a: seq<string>, b: seq<string>)
    requires |a| > 0 && |b| > 0 && a[0] == b[0]
    ensures GetRequest(a) == GetRequest(b)
  {
  }

  /** The requested path names the same data point as the dotted path: turning
      it back gives the first path, when that path has no '/'. */
  lemma GetRequestPathRoundTrip(datapoints: seq<string>)
    requires |datapoints| > 0 && '/' !in datapoints[0]
    ensures Replace(GetRequest(datapoints).value.path, '/', '.') == datapoints[0]
  {
    TypeConverter.InternalPathUndoesDuoPath(datapoints[0]);
  }

  /** The set document has exactly the fields action = "set", target = the
      dotted path and value = its value, for the smallest key of the map. */
  lemma SetDocumentShape(entries: seq<(string, Value)>)
    requires Sorted(entries) && |entries| > 0
    ensures var document := SetRequest(entries).value.document;
      && document.Struct?
      && |document.fields| == 3
      && DistinctKeys(document.fields)
      && FindField(document.fields, "action") == Some(Str("set"))
      && FindField(document.fields, "target") == Some(Str(entries[0].0))
      && FindField(document.fields, "value") == Lookup(entries, entries[0].0)
      && (forall k :: FindField(document.fields, k).Some? <==> k == "action" || k == "target" || k == "value")
    ensures forall i :: 0 < i < |entries| ==> Less(entries[0].0, entries[i].0)
  {
    var f1 := SetField([], "action", Str("set"));
    var f2 := SetField(f1, "target", Str(entries[0].0));
    var f3 := SetField(f2, "value", entries[0].1);
    SetFieldDistinct([], "action", Str("set"));
    SetFieldDistinct(f1, "target", Str(entries[0].0));
    SetFieldDistinct(f2, "value", entries[0].1);
  }

  /** The client already hands over a duo path; converting it again changes
      nothing, so the filter is the client's query in duo form. */
  lemma SubscribeFilterOfDuoTarget(query: string)
    ensures SubscribeRequest([Replace(query, '.', '/')]).filters == [Replace(query, '.', '/')]
  {
    TypeConverter.DuoPathIdempotent(query);
  }

  /** Without a target, the subscription carries no filter. */
  lemma SubscribeWithoutTargets()
    ensures SubscribeRequest([]).filters == []
  {
  }
}
