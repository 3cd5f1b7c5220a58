/** DataPointReply: the result of a read or of one streamed update. It holds a
    map from path to data-point value, and the raw duo response it was made from. */
module DataPointReplies {
  import opened Wrappers
  import opened Proto
  import opened DataPointValues

  class DataPointReply {
    var dataPointsMap: map<string, DataPointValue>
    var duoGetResponse: GetResponse

    /** The default constructor: no data points, and a response without an item. */
    constructor ()
      ensures dataPointsMap == map[] && duoGetResponse == GetResponse(None)
      ensures Empty()
    {
      dataPointsMap := map[];
      duoGetResponse := GetResponse(None);
    }

    /** The constructor that takes over a data-point map. */
    constructor FromMap(dataPoints: map<string, DataPointValue>)
      ensures dataPointsMap == dataPoints && duoGetResponse == GetResponse(None)
      ensures Empty() <==> |dataPoints| == 0
    {
      dataPointsMap := dataPoints;
      duoGetResponse := GetResponse(None);
    }

    /** getUntyped: the value stored under `path`, or InvalidValueException
        naming the path when there is none. */
    function GetUntyped(path: string): (r: Result<DataPointValue, Error>)
      reads this
      ensures r.Success? <==> path in dataPointsMap
      ensures r.Success? ==> r.value == dataPointsMap[path]
      ensures r.Failure? ==> r.error == InvalidValue(path + " is not contained in reply!")
    {
      if path in dataPointsMap then Success(dataPointsMap[path])
      else Failure(InvalidValue(path + " is not contained in reply!"))
    }

    /** get<T>: converts the stored item with the data point's own converter
        (`convert`, DataPoint::convertDuoResponseToDataPoint) and casts it to the
        typed value of `expected`; None stands for nullptr. */
    function Get(convert: Value -> DataPointValue, expected: DataType): (r: Option<DataPointValue>)
      reads this
      ensures duoGetResponse.item.None? ==> r.None?
      ensures r.Some? <==> duoGetResponse.item.Some? && convert(duoGetResponse.item.value).dtype == expected
      ensures r.Some? ==> r.value == convert(duoGetResponse.item.value) && r.value.dtype == expected
    {
      if duoGetResponse.item.Some? then
        var converted := convert(duoGetResponse.item.value);
        if converted.dtype == expected then Some(converted) else None
      else None
    }

    /** empty(). */
    function Empty(): (r: bool)
      reads this
      ensures r <==> forall path :: path !in dataPointsMap
    {
      |dataPointsMap| == 0
    }

    /** setDuoGetResponse: replaces the stored response; the data points stay. */
    method SetDuoGetResponse(response: GetResponse)
      modifies this
      ensures GetDuoGetResponse() == response
      ensures dataPointsMap == old(dataPointsMap)
    {
      duoGetResponse := response;
    }

    function GetDuoGetResponse(): GetResponse
      reads this
    {
      duoGetResponse
    }
  }

  /** A reply built from a map reports each stored value back, and fails for
      every other path. */
  lemma GetUntypedOfMap(reply: DataPointReply, dataPoints: map<string, DataPointValue>, path: string)
    requires reply.dataPointsMap == dataPoints
    ensures path in dataPoints ==> reply.GetUntyped(path) == Success(dataPoints[path])
    ensures path !in dataPoints ==> reply.GetUntyped(path).Failure?
  {
  }

  /** A reply is empty exactly when no path can be read from it. */
  lemma EmptyIffNothingReadable(reply: DataPointReply)
    ensures reply.Empty() <==> forall path :: reply.GetUntyped(path).Failure?
  {
    if !reply.Empty() {
      var path :| path in reply.dataPointsMap;
      assert reply.GetUntyped(path).Success?;
    }
  }
}
