# Duo broker adapter and VSS path adapter

This project models the broker protocol adapter of a vehicle application. The
application reads, writes and subscribes to vehicle signals named by dotted
paths (`Vehicle.Speed`). A "duo" broker stores them as
`google.protobuf.Value` trees under slash paths (`Vehicle/Speed`). The model
covers these layers:

- **DuoTypeConverter** (`type_converter.dfy`). It converts typed data-point
  values to protobuf values (`toDuoValue`) and back (`fromDuoValue`). It
  coerces bools, integers of every width, doubles and strings, each with its
  own failure messages. It splits dotted paths into segments and locates the
  leaf a path names inside a nested struct, with a fallback to a
  slash-joined compound key. It also swaps the `.` and `/` separators.
- **BrokerAsyncGrpcFacade** (`broker_facade.dfy`). It builds the
  `GetReport`, `CreateJob` and `ListenReport` requests, using only the first
  path or the smallest map key. It models the call objects and how their
  completion callbacks dispatch to the reply or error handler.
- **BrokerClient** (`broker_client.dfy`). It turns what the facade delivers
  into `DataPointReply` values.
  - A read becomes a reply keyed by the first requested path.
  - A write becomes an ordered path-to-value map.
  - Each streamed update is flattened, through `collectValuePaths`, into one
    reply per leaf.
- **DataPointReply** (`data_point_reply.dfy`). The reply class holds the
  data-point map and the raw response.
- **vss-path-adapter.py** (`vss_path_adapter.dfy`). This is the Python
  adapter that rewrites COVESA VSS leaf paths through a fixed translation
  table (`translate_path`, `extract_and_translate`). It republishes the
  translated leaves as one nested update (`publish_translated_data`).

Supporting modules:

- `proto.dfy`: the protobuf value and the duo messages.
- `ordered_map.dfy`: `std::map` as a sorted association list.
- `strings.dfy`: replace, join, split, find and the byte order of
  `std::string`.
- `data_point_value.dfy`: the typed value.

Library number conversions (`std::stoll`, `std::stoull`, `std::stod`,
`ostringstream`, `fmt`) are parameters: the `NumberText` record and the
`format` argument of `ValueToString`. Each
loop of the source is a method with invariants, proved equal to a recursive
specification function. The properties are proved about those functions.

Behaviours of the code that the model keeps:

- A subscription reply holds only the raw response, with the leaf as its
  item. Its data-point map is empty, so the leaf's own path is not stored in
  the reply (`broker_client.dfy`, `Carries`).
- `locateLeaf` returns the first non-struct node it reaches, whatever
  segments remain. It does not report not-found for an early leaf.
  `TypeConverter.WalkStopsAtLeaf` states this.
- The compound-key fallback joins the remaining non-empty segments with
  `/`. It does not rewrite the original path text.
- `translate_path` returns the slash-normalised path when no translation
  exists, not its argument. So a dotted path without a table entry counts as
  "changed" and is republished (`VssPathAdapter.TranslateChangesIff`).

## Model

| member | source | states |
|---|---|---|
| Proto.FindField | vehicle-app-cpp-sdk-v1.0.3/sdk/src/sdk/vdb/grpc/duo/TypeConverter.cpp:58-63 | Struct field lookup returns nothing exactly when no entry has the key. Otherwise it returns a value stored under that key. |
| Proto.FindDistinct | vehicle-app-cpp-sdk-v1.0.3/sdk/src/sdk/vdb/grpc/duo/TypeConverter.cpp:58-63 | With distinct keys, lookup returns the value stored under the key. |
| Proto.SetField | vehicle-app-cpp-sdk-v1.0.3/sdk/src/sdk/vdb/grpc/duo/BrokerAsyncGrpcFacade.cpp:111-115 | `fields[key] = value`: afterwards the key finds the value and every other key finds what it found before. The size grows by one exactly when the key was new. No entry other than the assigned one appears. |
| Proto.SetFieldDistinct | vehicle-app-cpp-sdk-v1.0.3/sdk/src/sdk/vdb/grpc/duo/BrokerAsyncGrpcFacade.cpp:111-115 | Assigning into fields with distinct keys keeps the keys distinct. |
| OrderedMap.Emplace | vehicle-app-cpp-sdk-v1.0.3/sdk/src/sdk/vdb/grpc/duo/BrokerClient.cpp:186 | `std::map::emplace` keeps the keys strictly ascending. A present key leaves the map unchanged. A new key is then found with its value, every other key finds what it found before, and no other entry appears. |
| OrderedMap.FirstIsSmallest | vehicle-app-cpp-sdk-v1.0.3/sdk/src/sdk/vdb/grpc/duo/BrokerAsyncGrpcFacade.cpp:104 | `begin()` of a non-empty map holds its smallest key. |
| TypeConverter.SplitPath | vehicle-app-cpp-sdk-v1.0.3/sdk/src/sdk/vdb/grpc/duo/TypeConverter.cpp:40-56 | The segments are the `.`-separated pieces of the path in order, with empty pieces dropped. Each is non-empty and has no `.`. |
| TypeConverter.NextPiece | vehicle-app-cpp-sdk-v1.0.3/sdk/src/sdk/vdb/grpc/duo/TypeConverter.cpp:45-53 | One round of the loop makes progress. The piece up to the next `.` (kept only when non-empty), followed by the segments after that `.`, gives the segments from the start position. |
| TypeConverter.SegmentsKeepCharacters | vehicle-app-cpp-sdk-v1.0.3/sdk/src/sdk/vdb/grpc/duo/TypeConverter.cpp:40-56 | The segments, concatenated, are exactly the path's characters other than `.`, in order. |
| TypeConverter.SegmentsOfJoin | vehicle-app-cpp-sdk-v1.0.3/sdk/src/sdk/vdb/grpc/duo/TypeConverter.cpp:40-56 | Splitting the dot-join of non-empty, dot-free segments gives back those segments. |
| TypeConverter.LocateLeaf | vehicle-app-cpp-sdk-v1.0.3/sdk/src/sdk/vdb/grpc/duo/TypeConverter.cpp:75-103 | The result is the walk of the segments through the struct. Each step tries the field, then its slash form, then the slash-joined remainder. It stops at the first non-struct. A non-struct root or an empty segment list gives the root itself. |
| TypeConverter.JoinRemaining | vehicle-app-cpp-sdk-v1.0.3/sdk/src/sdk/vdb/grpc/duo/TypeConverter.cpp:88-92 | The fallback key is the remaining segments joined by `/`. |
| TypeConverter.WalkStopsAtLeaf | vehicle-app-cpp-sdk-v1.0.3/sdk/src/sdk/vdb/grpc/duo/TypeConverter.cpp:81-83 | Once the walk is at a non-struct node, it returns that node whatever segments remain. |
| TypeConverter.LocateCompoundKey | vehicle-app-cpp-sdk-v1.0.3/sdk/src/sdk/vdb/grpc/duo/TypeConverter.cpp:86-95 | Take a struct without the first segment as a key but with the slash-joined path as one key. Locating the path there yields the leaf stored under the compound key. |
| TypeConverter.ConvertToBool | vehicle-app-cpp-sdk-v1.0.3/sdk/src/sdk/vdb/grpc/duo/TypeConverter.cpp:209-226 | It succeeds exactly for a bool, a number, or a string whose ASCII lower-case form is `true`, `1`, `false` or `0`. A bool gives itself and a number gives whether its magnitude exceeds epsilon. `true` and `1` give true; `false` and `0` give false. Null, list, struct and a value with no kind fail. Every failure carries the boolean message. |
| TypeConverter.BoolCoercionCases | vehicle-app-cpp-sdk-v1.0.3/sdk/src/sdk/vdb/grpc/duo/TypeConverter.cpp:209-226 | 1e-7 is false (not above kEpsilon) and 2 is true. `"TRUE"` is true. `"maybe"` and null fail. |
| TypeConverter.RoundHalfEven | vehicle-app-cpp-sdk-v1.0.3/sdk/src/sdk/vdb/grpc/duo/TypeConverter.cpp:198 | `nearbyintl` lies within one half of its argument, and a tie goes to the even integer. |
| TypeConverter.RoundOfInteger | vehicle-app-cpp-sdk-v1.0.3/sdk/src/sdk/vdb/grpc/duo/TypeConverter.cpp:198 | An integer rounds to itself. |
| TypeConverter.UnsignedFromText | vehicle-app-cpp-sdk-v1.0.3/sdk/src/sdk/vdb/grpc/duo/TypeConverter.cpp:159-168 | The unsigned string branch succeeds exactly when `stoull` consumed the whole string and the value is at most the type's maximum. The value is then the parsed one. |
| TypeConverter.SignedFromText | vehicle-app-cpp-sdk-v1.0.3/sdk/src/sdk/vdb/grpc/duo/TypeConverter.cpp:169-180 | The signed string branch succeeds exactly when `stoll` consumed the whole string and the value lies within the type's range. The value is then the parsed one. |
| TypeConverter.ConvertToIntegral | vehicle-app-cpp-sdk-v1.0.3/sdk/src/sdk/vdb/grpc/duo/TypeConverter.cpp:152-207 | A bool gives 0 or 1. A number succeeds exactly when it is finite and its half-even rounding lies within the type's range, and then gives that rounding. A non-finite number fails with the non-finite message and one out of range with the range message. A string goes through the unsigned reader for an unsigned type and the signed reader otherwise, then through the same range and full-consumption checks. Number results, and all results for a signed type, lie within the type's range. Null, list, struct and a value with no kind fail with the unsupported message. |
| TypeConverter.IntegralInRange | vehicle-app-cpp-sdk-v1.0.3/sdk/src/sdk/vdb/grpc/duo/TypeConverter.cpp:152-207 | Given library parsers that keep to their own ranges, every integer returned lies within the target type's range. |
| TypeConverter.UnsignedParseInRange | vehicle-app-cpp-sdk-v1.0.3/sdk/src/sdk/vdb/grpc/duo/TypeConverter.cpp:159-168 | The unsigned string branch returns a value within the target type's range. |
| TypeConverter.IntegralCoercionCases | vehicle-app-cpp-sdk-v1.0.3/sdk/src/sdk/vdb/grpc/duo/TypeConverter.cpp:192-204 | For int8, 3.5 gives 4 and 2.5 gives 2, and 1000 is out of range. For int64, NaN is non-finite. |
| TypeConverter.ConvertToDouble | vehicle-app-cpp-sdk-v1.0.3/sdk/src/sdk/vdb/grpc/duo/TypeConverter.cpp:111-132 | A number is returned as it is, and a bool as 1 or 0. A string succeeds exactly when `stod` parses all of it, and then gives the parsed value. Every string failure has the "failed to parse" message. Null, list, struct and a value with no kind fail as unsupported. |
| TypeConverter.ConvertToString | vehicle-app-cpp-sdk-v1.0.3/sdk/src/sdk/vdb/grpc/duo/TypeConverter.cpp:134-150 | It fails exactly for a list, a struct or a value with no kind. A string comes back unchanged and null gives the empty string. A bool gives "true" or "false", and a number gives its rendering. |
| TypeConverter.ConvertEachElementwise | vehicle-app-cpp-sdk-v1.0.3/sdk/src/sdk/vdb/grpc/duo/TypeConverter.cpp:234-239 | The list converts exactly when every item converts, giving one element per item in order. Otherwise the error is that of the first item that does not convert. |
| TypeConverter.ConvertList | vehicle-app-cpp-sdk-v1.0.3/sdk/src/sdk/vdb/grpc/duo/TypeConverter.cpp:229-240 | Only a list converts. The result has one element per item, each the converter's result on that item. |
| TypeConverter.ConvertEachFailurePropagates | vehicle-app-cpp-sdk-v1.0.3/sdk/src/sdk/vdb/grpc/duo/TypeConverter.cpp:236-238 | A failure on a prefix of the items is the result for the whole list. |
| TypeConverter.ToDuoValue | vehicle-app-cpp-sdk-v1.0.3/sdk/src/sdk/vdb/grpc/duo/TypeConverter.cpp:264-398 | An invalid value encodes as null. An unsupported type throws InvalidType. A scalar becomes a bool, number or string, and an array becomes a list of the same length. |
| TypeConverter.FromDuoValue | vehicle-app-cpp-sdk-v1.0.3/sdk/src/sdk/vdb/grpc/duo/TypeConverter.cpp:400-553 | A missing leaf throws "not present" with the path. For a supported type, a null leaf gives a NOT_AVAILABLE value of that type. Every success carries the requested path and the expected type. |
| TypeConverter.ElementRoundTrip | vehicle-app-cpp-sdk-v1.0.3/sdk/src/sdk/vdb/grpc/duo/TypeConverter.cpp:276-392 | An element of a type, once encoded, converts back under that type to the same element. |
| TypeConverter.DecodeEncode | vehicle-app-cpp-sdk-v1.0.3/sdk/src/sdk/vdb/grpc/duo/TypeConverter.cpp:264-553 | Round trip: `fromDuoValue(toDuoValue(v))` under v's own type gives v back, under the requested path. An invalid v comes back NOT_AVAILABLE. |
| TypeConverter.DecodeWellTyped | vehicle-app-cpp-sdk-v1.0.3/sdk/src/sdk/vdb/grpc/duo/TypeConverter.cpp:400-553 | A valid decoded value holds a payload of the expected type, with integers in the type's range. |
| TypeConverter.LeafWellTyped | vehicle-app-cpp-sdk-v1.0.3/sdk/src/sdk/vdb/grpc/duo/TypeConverter.cpp:410-552 | The same, once the leaf is found. |
| TypeConverter.ListElementsFit | vehicle-app-cpp-sdk-v1.0.3/sdk/src/sdk/vdb/grpc/duo/TypeConverter.cpp:229-240 | Every element of a converted list fits the array's element type. |
| TypeConverter.ElementFits | vehicle-app-cpp-sdk-v1.0.3/sdk/src/sdk/vdb/grpc/duo/TypeConverter.cpp:485-552 | A converted scalar fits the element type it was converted to. |
| TypeConverter.ReplaceInPlace | vehicle-app-cpp-sdk-v1.0.3/sdk/src/sdk/vdb/grpc/duo/TypeConverter.cpp:563 | `std::replace` over the buffer leaves it equal to the old contents with every `from` replaced by `to`. |
| TypeConverter.ToDuoPath | vehicle-app-cpp-sdk-v1.0.3/sdk/src/sdk/vdb/grpc/duo/TypeConverter.cpp:561-565 | The result is the path with `.` replaced by `/`. It has the same length and no `.`. |
| TypeConverter.ToInternalPath | vehicle-app-cpp-sdk-v1.0.3/sdk/src/sdk/vdb/grpc/duo/TypeConverter.cpp:567-571 | The result is the path with `/` replaced by `.`. It has the same length and no `/`. |
| TypeConverter.DuoPathIdempotent | vehicle-app-cpp-sdk-v1.0.3/sdk/src/sdk/vdb/grpc/duo/TypeConverter.cpp:561-565 | Converting to the duo form twice is the same as converting once. |
| TypeConverter.InternalPathUndoesDuoPath | vehicle-app-cpp-sdk-v1.0.3/sdk/src/sdk/vdb/grpc/duo/TypeConverter.cpp:561-571 | `toInternalPath(toDuoPath(p)) == p` for every p without `/`. |
| DataPointReplies.DataPointReply.constructor | vehicle-app-cpp-sdk-v1.0.3/sdk/include/sdk/DataPointReply.h:43 | The default reply has no data points and no item, and is empty. |
| DataPointReplies.DataPointReply.FromMap | vehicle-app-cpp-sdk-v1.0.3/sdk/include/sdk/DataPointReply.h:45-46 | The reply takes over the map, has no item, and is empty exactly when the map is. |
| DataPointReplies.DataPointReply.GetUntyped | vehicle-app-cpp-sdk-v1.0.3/sdk/include/sdk/DataPointReply.h:54-60 | It succeeds exactly for a stored path, with the stored value. Otherwise it throws InvalidValue with "<path> is not contained in reply!". |
| DataPointReplies.DataPointReply.Get | vehicle-app-cpp-sdk-v1.0.3/sdk/include/sdk/DataPointReply.h:69-82 | There is no value without an item. There is one exactly when the item's conversion has the requested type, and it is that conversion. |
| DataPointReplies.DataPointReply.Empty | vehicle-app-cpp-sdk-v1.0.3/sdk/include/sdk/DataPointReply.h:90 | The reply is empty exactly when no path is in its map. |
| DataPointReplies.DataPointReply.SetDuoGetResponse | vehicle-app-cpp-sdk-v1.0.3/sdk/include/sdk/DataPointReply.h:97-101 | `getDuoGetResponse` afterwards returns the response just set, and the data-point map is unchanged. |
| DataPointReplies.GetUntypedOfMap | vehicle-app-cpp-sdk-v1.0.3/sdk/include/sdk/DataPointReply.h:45-60 | A reply built from a map reads back every stored value and fails for every other path. |
| DataPointReplies.EmptyIffNothingReadable | vehicle-app-cpp-sdk-v1.0.3/sdk/include/sdk/DataPointReply.h:54-90 | A reply is empty exactly when `getUntyped` fails for every path. |
| BrokerFacade.UnaryCall.constructor | vehicle-app-cpp-sdk-v1.0.3/sdk/src/sdk/vdb/grpc/duo/BrokerAsyncGrpcFacade.cpp:29-30 | A new call holds its request, no response, is not complete and has run no handler. |
| BrokerFacade.UnaryCall.OnComplete | vehicle-app-cpp-sdk-v1.0.3/sdk/src/sdk/vdb/grpc/duo/BrokerAsyncGrpcFacade.cpp:65-76 | Exactly one handler runs: the reply handler for an ok status, otherwise the error handler. The call is complete afterwards, even when the handler throws. |
| BrokerFacade.StreamCall.constructor | vehicle-app-cpp-sdk-v1.0.3/sdk/src/sdk/vdb/grpc/duo/BrokerAsyncGrpcFacade.cpp:146-147 | A new stream call holds its request, has delivered nothing, has recorded no error and is not complete. |
| BrokerFacade.StreamCall.OnData | vehicle-app-cpp-sdk-v1.0.3/sdk/src/sdk/vdb/grpc/duo/BrokerAsyncGrpcFacade.cpp:160-162 | Each response reaches the stream handler unmodified and in order. Nothing else changes. |
| BrokerFacade.StreamCall.OnFinish | vehicle-app-cpp-sdk-v1.0.3/sdk/src/sdk/vdb/grpc/duo/BrokerAsyncGrpcFacade.cpp:164-169 | The error handler runs exactly for a status that is not ok. The call is complete either way. |
| BrokerFacade.GetRequest | vehicle-app-cpp-sdk-v1.0.3/sdk/src/sdk/vdb/grpc/duo/BrokerAsyncGrpcFacade.cpp:43-52 | There is no request exactly for an empty list. Otherwise the thing is "vss" and the path is the first path with every `.` replaced by `/`, of the same length. |
| BrokerFacade.SetRequest | vehicle-app-cpp-sdk-v1.0.3/sdk/src/sdk/vdb/grpc/duo/BrokerAsyncGrpcFacade.cpp:99-117 | There is no request exactly for an empty map. Otherwise the thing is "vss" and the document is a struct with action "set". Its target is the map's least path and its value is the value stored under that path. |
| BrokerFacade.SubscribeRequest | vehicle-app-cpp-sdk-v1.0.3/sdk/src/sdk/vdb/grpc/duo/BrokerAsyncGrpcFacade.cpp:149-155 | The thing is "vss" and the initial value is requested. With a target there is one filter, the first target with every `.` replaced by `/`. Without one there is no filter. |
| BrokerFacade.GetDatapoints | vehicle-app-cpp-sdk-v1.0.3/sdk/src/sdk/vdb/grpc/duo/BrokerAsyncGrpcFacade.cpp:25-88 | Nothing is dispatched for an empty list. Otherwise one fresh, incomplete call carries the GetReport request of the first path. |
| BrokerFacade.SetDatapoints | vehicle-app-cpp-sdk-v1.0.3/sdk/src/sdk/vdb/grpc/duo/BrokerAsyncGrpcFacade.cpp:90-139 | Nothing is dispatched for an empty map. Otherwise one fresh, incomplete call carries the CreateJob request of the first entry. |
| BrokerFacade.Subscribe | vehicle-app-cpp-sdk-v1.0.3/sdk/src/sdk/vdb/grpc/duo/BrokerAsyncGrpcFacade.cpp:141-174 | A fresh stream call always carries the ListenReport request of the targets. |
| BrokerFacade.GetRequestUsesFirstPathOnly | vehicle-app-cpp-sdk-v1.0.3/sdk/src/sdk/vdb/grpc/duo/BrokerAsyncGrpcFacade.cpp:48 | Lists with the same first path give the same request. |
| BrokerFacade.GetRequestPathRoundTrip | vehicle-app-cpp-sdk-v1.0.3/sdk/src/sdk/vdb/grpc/duo/BrokerAsyncGrpcFacade.cpp:48-52 | The requested path, turned back into dotted form, is the first path when that path has no `/`. |
| BrokerFacade.SetDocumentShape | vehicle-app-cpp-sdk-v1.0.3/sdk/src/sdk/vdb/grpc/duo/BrokerAsyncGrpcFacade.cpp:104-117 | The document is a struct with exactly three distinct fields. `action` is "set", `target` is the smallest key and `value` is that key's value. Every other key is greater. |
| BrokerFacade.SubscribeFilterOfDuoTarget | vehicle-app-cpp-sdk-v1.0.3/sdk/src/sdk/vdb/grpc/duo/BrokerAsyncGrpcFacade.cpp:152-155 | A target already in duo form is sent as the one filter, unchanged. |
| BrokerFacade.SubscribeWithoutTargets | vehicle-app-cpp-sdk-v1.0.3/sdk/src/sdk/vdb/grpc/duo/BrokerAsyncGrpcFacade.cpp:152-155 | Without a target there is no filter. |
| BrokerClient.JoinPathSegments | vehicle-app-cpp-sdk-v1.0.3/sdk/src/sdk/vdb/grpc/duo/BrokerClient.cpp:40-52 | The path is the non-empty segments joined by `/`. For `/`-free segments it has no leading, trailing or doubled `/`. |
| BrokerClient.JoinOfNonEmptyParts | vehicle-app-cpp-sdk-v1.0.3/sdk/src/sdk/vdb/grpc/duo/BrokerClient.cpp:46-49 | Joining non-empty parts gives the empty path only when there are no parts. |
| BrokerClient.JoinWellShaped | vehicle-app-cpp-sdk-v1.0.3/sdk/src/sdk/vdb/grpc/duo/BrokerClient.cpp:40-52 | Non-empty, `/`-free parts join into a path with no leading, trailing or doubled `/`. |
| BrokerClient.JoinedPathSplits | vehicle-app-cpp-sdk-v1.0.3/sdk/src/sdk/vdb/grpc/duo/BrokerClient.cpp:40-52 | Splitting a non-empty joined path at `/` gives back the non-empty segments. |
| BrokerClient.ValueToString | vehicle-app-cpp-sdk-v1.0.3/sdk/src/sdk/vdb/grpc/duo/BrokerClient.cpp:54-68 | A string is shown as it is, a number as fmt renders it, and a bool as "true" or "false". Null is shown as "null", and a list, a struct or a value with no kind as "". |
| BrokerClient.ValueToStringAgainstConvertToString | vehicle-app-cpp-sdk-v1.0.3/sdk/src/sdk/vdb/grpc/duo/BrokerClient.cpp:54-68 | The log rendering agrees with the converter's string coercion on strings and bools. On null they differ: "null" against "". |
| BrokerClient.ConvertDuoResponse | vehicle-app-cpp-sdk-v1.0.3/sdk/src/sdk/vdb/grpc/duo/BrokerClient.cpp:71-92 | It succeeds exactly for a string, bool, number or null, giving a scalar under the path. A list, a struct or a value with no kind fails. Otherwise it throws the "unsupported value type" message. |
| BrokerClient.ConvertDuoResponseIsDecode | vehicle-app-cpp-sdk-v1.0.3/sdk/src/sdk/vdb/grpc/duo/BrokerClient.cpp:71-92 | The type guessed from the value's kind, decoded by the typed converter under that type, gives the same value. A value with no kind fails both ways. |
| BrokerClient.CollectValuePaths | vehicle-app-cpp-sdk-v1.0.3/sdk/src/sdk/vdb/grpc/duo/BrokerClient.cpp:94-111 | The current path comes back as it was passed in. The leaf list and the path list grow by every non-struct value below, in field order, each under its joined key path. |
| BrokerClient.CollectField | vehicle-app-cpp-sdk-v1.0.3/sdk/src/sdk/vdb/grpc/duo/BrokerClient.cpp:98-102 | One push, collect and pop adds exactly the leaves of one more field, and the pop hands back the current path as it was. |
| BrokerClient.LeavesAreLeaves | vehicle-app-cpp-sdk-v1.0.3/sdk/src/sdk/vdb/grpc/duo/BrokerClient.cpp:94-111 | Every collected entry is a non-struct value. Its key path extends the prefix and walks from the value to that leaf. Below a struct, the key path is strictly longer than the prefix. |
| BrokerClient.ReportedPathsResolve | vehicle-app-cpp-sdk-v1.0.3/sdk/src/sdk/vdb/grpc/duo/BrokerClient.cpp:94-111 | Take a well-formed struct with plain keys. Every reported path, turned into dotted form and located with `locateLeaf`, names exactly its own leaf. |
| BrokerClient.LeavesCount | vehicle-app-cpp-sdk-v1.0.3/sdk/src/sdk/vdb/grpc/duo/BrokerClient.cpp:94-111 | There is one entry per non-struct value below. A non-struct root without a key path gives none. |
| BrokerClient.AsyncResult.constructor | vehicle-app-cpp-sdk-v1.0.3/sdk/src/sdk/vdb/grpc/duo/BrokerClient.cpp:136 | A new result is pending. |
| BrokerClient.AsyncResult.InsertResult | vehicle-app-cpp-sdk-v1.0.3/sdk/src/sdk/vdb/grpc/duo/BrokerClient.cpp:169 | The result resolves to the value. |
| BrokerClient.AsyncResult.InsertError | vehicle-app-cpp-sdk-v1.0.3/sdk/src/sdk/vdb/grpc/duo/BrokerClient.cpp:172-173 | The result fails with the message. |
| BrokerClient.AsyncSubscription.constructor | vehicle-app-cpp-sdk-v1.0.3/sdk/src/sdk/vdb/grpc/duo/BrokerClient.cpp:207 | A new subscription has no items and no errors. |
| BrokerClient.AsyncSubscription.InsertNewItem | vehicle-app-cpp-sdk-v1.0.3/sdk/src/sdk/vdb/grpc/duo/BrokerClient.cpp:248 | The item is appended and the errors are unchanged. |
| BrokerClient.AsyncSubscription.InsertError | vehicle-app-cpp-sdk-v1.0.3/sdk/src/sdk/vdb/grpc/duo/BrokerClient.cpp:252-253 | The error is appended and the items are unchanged. |
| BrokerClient.GetReplyMapKeys | vehicle-app-cpp-sdk-v1.0.3/sdk/src/sdk/vdb/grpc/duo/BrokerClient.cpp:148-162 | The read reply holds no path but the first requested one. It holds that path exactly when the item is present and is not a list, a struct or a value with no kind. A conversion failure only leaves the map empty. |
| BrokerClient.GetDatapoints | vehicle-app-cpp-sdk-v1.0.3/sdk/src/sdk/vdb/grpc/duo/BrokerClient.cpp:134-176 | The result starts pending. There is no call for an empty list, otherwise a fresh call with the GetReport request of the first path. |
| BrokerClient.OnGetReply | vehicle-app-cpp-sdk-v1.0.3/sdk/src/sdk/vdb/grpc/duo/BrokerClient.cpp:148-169 | Corrected handler: the result always resolves, to a fresh reply. The reply holds the converted first path, when convertible, and the raw response. |
| BrokerClient.CompleteGet | vehicle-app-cpp-sdk-v1.0.3/sdk/src/sdk/vdb/grpc/duo/BrokerClient.cpp:139-174 | The call completes having run exactly one handler. An ok status resolves the result to the reply built from the call's response. Any other status fails it with "RPC 'GetDatapoints' failed: <message>". The call's request and response are unchanged. |
| BrokerClient.FindText | vehicle-app-cpp-sdk-v1.0.3/sdk/src/sdk/vdb/grpc/duo/BrokerClient.cpp:146 | A position found is the first one at or after the start where the pattern occurs. No position means the pattern occurs nowhere from the start on. |
| BrokerClient.OnGetReplyAsWritten | vehicle-app-cpp-sdk-v1.0.3/sdk/src/sdk/vdb/grpc/duo/BrokerClient.cpp:143-169 | As written: when the log-text trimming throws, the result is left as it was. Otherwise it resolves to the reply map. |
| BrokerClient.ReplyWithoutItemNeverResolves | vehicle-app-cpp-sdk-v1.0.3/sdk/src/sdk/vdb/grpc/duo/BrokerClient.cpp:144-146 | For a response with no item the trimming throws. For a response with an item it does not. |
| BrokerClient.TrimAfterItemThrows | vehicle-app-cpp-sdk-v1.0.3/sdk/src/sdk/vdb/grpc/duo/BrokerClient.cpp:193-195 | `substr(find("item ") + 5)` throws exactly when the text has no "item " and is shorter than 4 characters. |
| BrokerClient.EmplaceAll | vehicle-app-cpp-sdk-v1.0.3/sdk/src/sdk/vdb/grpc/duo/BrokerClient.cpp:182-187 | The path-to-value map built by the loop is strictly ordered by key. |
| BrokerClient.EmplaceAllSucceeds | vehicle-app-cpp-sdk-v1.0.3/sdk/src/sdk/vdb/grpc/duo/BrokerClient.cpp:182-187 | The map is built exactly when every data point encodes. |
| BrokerClient.EmplaceAllKeys | vehicle-app-cpp-sdk-v1.0.3/sdk/src/sdk/vdb/grpc/duo/BrokerClient.cpp:182-187 | The map's keys are exactly the data points' paths. |
| BrokerClient.EmplaceAllFirstWins | vehicle-app-cpp-sdk-v1.0.3/sdk/src/sdk/vdb/grpc/duo/BrokerClient.cpp:186 | A path holds the encoding of the first data point that carries it. A later duplicate does not overwrite it. |
| BrokerClient.EmplaceAllNonEmpty | vehicle-app-cpp-sdk-v1.0.3/sdk/src/sdk/vdb/grpc/duo/BrokerClient.cpp:182-187 | The map is empty only for an empty list of data points. |
| BrokerClient.EmplaceAllFailurePropagates | vehicle-app-cpp-sdk-v1.0.3/sdk/src/sdk/vdb/grpc/duo/BrokerClient.cpp:185 | An encoding that throws on a prefix is what the whole loop throws. |
| BrokerClient.EncodeDatapoints | vehicle-app-cpp-sdk-v1.0.3/sdk/src/sdk/vdb/grpc/duo/BrokerClient.cpp:182-187 | The loop computes the map specified by EmplaceAll over `toDuoValue`, or throws the first encoding failure. |
| BrokerClient.SetDatapoints | vehicle-app-cpp-sdk-v1.0.3/sdk/src/sdk/vdb/grpc/duo/BrokerClient.cpp:178-204 | It throws exactly when some encoding throws, and then dispatches nothing. Otherwise the result starts pending. There is no call for an empty list, otherwise a fresh call with the CreateJob request of the map. |
| BrokerClient.OnSetReplyAsWritten | vehicle-app-cpp-sdk-v1.0.3/sdk/src/sdk/vdb/grpc/duo/BrokerClient.cpp:191-198 | As written: when the trimming of the response text throws, the result is left as it was. Otherwise it resolves to an empty error map. |
| BrokerClient.CompleteSet | vehicle-app-cpp-sdk-v1.0.3/sdk/src/sdk/vdb/grpc/duo/BrokerClient.cpp:189-202 | Corrected completion: the call completes. The reply handler runs on an ok status and the error handler otherwise. An ok status resolves to an empty error map. Any other status fails with "RPC 'SetDatapoints' failed: <message>". The call's request and response are unchanged. |
| BrokerClient.ItemEntriesHaveNoStruct | vehicle-app-cpp-sdk-v1.0.3/sdk/src/sdk/vdb/grpc/duo/BrokerClient.cpp:222-241 | A bool, null, list or kindless item contributes nothing, and no item contributes a struct. |
| BrokerClient.StreamEntriesHaveNoStruct | vehicle-app-cpp-sdk-v1.0.3/sdk/src/sdk/vdb/grpc/duo/BrokerClient.cpp:222-241 | No entry of an update carries a struct. |
| BrokerClient.Subscribe | vehicle-app-cpp-sdk-v1.0.3/sdk/src/sdk/vdb/grpc/duo/BrokerClient.cpp:206-214 | The subscription starts with no items and no errors. The query in duo form is the only filter. |
| BrokerClient.FlattenUpdate | vehicle-app-cpp-sdk-v1.0.3/sdk/src/sdk/vdb/grpc/duo/BrokerClient.cpp:217-241 | The list holds the items in order, each contributing its `ItemEntries`. A number or string is one entry under the query, a struct is one entry per leaf under its joined path, and a bool, null, list or kindless item contributes nothing. No entry is a struct. |
| BrokerClient.OnSubscribeData | vehicle-app-cpp-sdk-v1.0.3/sdk/src/sdk/vdb/grpc/duo/BrokerClient.cpp:216-250 | Earlier items are kept. Then one fresh reply per flattened entry is appended, in order, holding the entry's leaf as its item and no data points. The errors are unchanged. |
| BrokerClient.DeliverAll | vehicle-app-cpp-sdk-v1.0.3/sdk/src/sdk/vdb/grpc/duo/BrokerClient.cpp:243-249 | Each entry yields exactly one fresh reply carrying its leaf, appended in order. |
| BrokerClient.DeliverValue | vehicle-app-cpp-sdk-v1.0.3/sdk/src/sdk/vdb/grpc/duo/BrokerClient.cpp:244-248 | A fresh default reply whose response item is the leaf is appended. |
| BrokerClient.FinishSubscribe | vehicle-app-cpp-sdk-v1.0.3/sdk/src/sdk/vdb/grpc/duo/BrokerClient.cpp:251-254 | The call completes. The subscription gets "RPC 'Subscribe' failed: <message>" exactly for a status that is not ok, and its items are unchanged. The stream records a status that is not ok and keeps its delivered responses and its request. |
| VssPathAdapter.TableShape | vss-path-adapter.py:38-46 | Every key is a slash path without `.`. Every target has no `.` and is not itself a key. |
| VssPathAdapter.CovesaPaths | vss-path-adapter.py:49 | Every key in slash form is in the set, and every entry is some key in slash form. No entry has a `.`, and there are no more entries than keys. |
| VssPathAdapter.CovesaPathsAreTheKeys | vss-path-adapter.py:49 | For the shipped table, COVESA_PATHS is exactly its key set. |
| VssPathAdapter.NormalizeChanges | vss-path-adapter.py:69 | Normalising changes a path exactly when it has a `.`. |
| VssPathAdapter.TranslatePath | vss-path-adapter.py:66-82 | A slash form in the table gives its target. A path whose slash and dotted forms are both absent gives its slash form. |
| VssPathAdapter.DottedLookupNeverHits | vss-path-adapter.py:75-78 | With the shipped table, the dotted lookup never finds an entry. |
| VssPathAdapter.TranslatedIsSlashForm | vss-path-adapter.py:66-82 | A translated path never has a `.`. |
| VssPathAdapter.TranslateChangesIff | vss-path-adapter.py:136-137 | A path is rewritten exactly when its slash form is a key or it has a `.`. |
| VssPathAdapter.TargetsTranslateToThemselves | vss-path-adapter.py:66-82 | Every target translates to itself, so a republished leaf read back is not republished again. |
| VssPathAdapter.ChildPathParts | vss-path-adapter.py:130 | A top-level child path is the key alone. Below it, the parts are the parent's parts followed by the key's. |
| VssPathAdapter.ExtractAndTranslate | vss-path-adapter.py:126-139 | `result` receives, in traversal order, one write per leaf whose non-empty path translates to something else, under the translated path. A list leaves `result` unchanged. |
| VssPathAdapter.ExtractField | vss-path-adapter.py:129-131 | One dict entry adds exactly the writes below it. |
| VssPathAdapter.WritesAreLeaves | vss-path-adapter.py:128-139 | Every value written is neither a dict nor a list. |
| VssPathAdapter.WritesGoToTargets | vss-path-adapter.py:126-139 | With the shipped table and keys without `.`, every write goes to a target of the table. |
| VssPathAdapter.ApplyWritesEntries | vss-path-adapter.py:139 | Writing keeps the result's keys distinct and adds only written entries. |
| VssPathAdapter.TranslatedData | vss-path-adapter.py:113-121 | What is handed to the publisher has distinct paths, each a target of the table and each holding a leaf. |
| VssPathAdapter.PathParts | vss-path-adapter.py:153 | A path splits into at least one part. |
| VssPathAdapter.BuildShadowUpdate | vss-path-adapter.py:150-162 | The loop computes the nested update, or fails when a path meets a non-dict intermediate. |
| VssPathAdapter.ShadowUpdateFailurePropagates | vss-path-adapter.py:152-162 | A failure on some path fails the whole update. |
| VssPathAdapter.PutPathReaches | vss-path-adapter.py:153-162 | After the assignment, the path's parts reach the value. |
| VssPathAdapter.PutPathKeepsOthers | vss-path-adapter.py:156-162 | A path that parts ways with the assigned one reaches what it reached before. |
| VssPathAdapter.PutPathSucceeds | vss-path-adapter.py:156-159 | The assignment succeeds exactly when every intermediate prefix is absent or a dict. |
| VssPathAdapter.PutPathNewLeaves | vss-path-adapter.py:156-162 | The assignment adds no non-dict anywhere except the value at its own path. |
| VssPathAdapter.ShadowUpdateReaches | vss-path-adapter.py:150-162 | Suppose no path's parts are a prefix of another's and no value is a dict. Then the update succeeds, every path reaches its value, and every non-dict in it sits at one of the paths. |
| VssPathAdapter.NewPathClear | vss-path-adapter.py:153-159 | When no earlier path's parts are a prefix of the new path's parts, no earlier leaf sits where the new path needs a dict. |
| VssPathAdapter.OldPathsKept | vss-path-adapter.py:150-162 | Assigning the new path keeps every earlier path's value in place. |
| VssPathAdapter.NewLeavesKnown | vss-path-adapter.py:150-162 | After assigning the new path, every non-dict sits at the new path or at an earlier one. |
| VssPathAdapter.TargetParts | vss-path-adapter.py:38-46 | Splitting each target of the shipped table at `/` gives its segments. |
| VssPathAdapter.TargetsNotPrefixes | vss-path-adapter.py:38-46 | No target's segments are a prefix of another target's segments. |
| VssPathAdapter.PublishedUpdateReaches | vss-path-adapter.py:109-162 | With the shipped table and keys without `.`, building the nested update never raises, and every translated path reaches its leaf in it. |

## Left out

- The gRPC transport is not modelled: stubs, channels, context metadata, `addActiveCall` and starting the call. A returned call object stands for a dispatched request, and a completion is a method call with the status.
- Logging is not modelled: `logger()` and the debug `std::cout` lines. `valueToString` is modelled because its result is what is logged.
- `std::stoll`, `std::stoull`, `std::stod`, `ostringstream` and `fmt::format` are parameters. Only the guarantee that a parsed integer fits `long long`/`unsigned long long` and consumes at most the whole string is assumed (`Conforms`).
- The narrowing cast to `float` is not modelled. A float element holds the double it was converted from.
- TypeConverter.DecodeEncode: an integer is encoded as its exact value. The loss of precision when an int64/uint64 above 2^53 is cast to a double is not modelled, so the round trip is stated for exact numbers.
- Timestamps of data-point values are not modelled.
- A protobuf number is `Finite(r)` with `r` an exact real, or one of +Inf, -Inf and NaN. The set of doubles is not modelled, so neither is rounding. No behaviour of the core depends on it: no double lies between the real 1e-6 and the long double `1e-6L` that is the epsilon, and `nearbyintl` and the range checks are exact on doubles.
- `GetResponse` and `CreateJobResponse` carry only the fields the client reads: the `item` of a read reply, and nothing of a set reply. The message definitions are not part of this model. So the text renderings the reply handlers trim are stated only for those fields.
- `sdk/DataPointValue.h` and `sdk/Exceptions.h` are not part of this model. InvalidValueException is taken to be a `std::exception` but neither `std::invalid_argument` nor `std::out_of_range`. That makes `stod`'s catch-all rewrite the partial-parse message while the integer messages survive.
- `DataPoint::convertDuoResponseToDataPoint`, called by `DataPointReply::get`, is not part of this model. It is the `convert` parameter of `Get`.
- The `fromDuoValue(DataPoint, value, timestamp)` overload (TypeConverter.cpp:555-559) only delegates with the data point's path and type. It is covered by `FromDuoValue`.
- `getDuoGetResponse` is a plain field read. Its contract is stated by `SetDuoGetResponse`.
- Protobuf map iteration order is fixed as the order of the struct's entries in the model. Flattening results are stated in that order.
- The `pathList` that `collectValuePaths` fills in `subscribe` is shared across items and never read. It is threaded through but nothing depends on it.
- The completions of the read and the set are modelled in corrected form (`CompleteGet`, `CompleteSet`). The as-written handlers are separate members (see Findings).
- In the Python adapter, the following are left out: I/O, the gRPC channel, the thread and the subscribe loop (`subscribe_and_translate`, `start`, `stop`, `main`), `MessageToDict`/`ParseDict`, and the patch request. `MessageToDict` raises `ValueError` on a NaN or infinite number anywhere in the shadow, and `process_shadow_update` then catches it and publishes nothing. The model's walk takes the shadow as given: for such an update it republishes the other leaves, where the source drops the update whole.
- Proto.Value: the kind that is not set is `Unset`. The broker's converters and `valueToString` treat it as the source does. In the Python adapter, `MessageToDict` would render it as `None`. The model's walk keeps it as a leaf holding `Unset`, so it is published at the same paths but not as a null.
- The `result` dict that `extract_and_translate` mutates is passed in and handed back as a value. The in-place walk over `current` in `publish_translated_data` is the functional `PutPath`. Python's `TypeError` on a non-dict intermediate is the `None` result.
- The table's paths are spelled in pieces, for example `"Vehicle/" + "CurrentLocation/" + "Latitude"`. The strings are the source's.

## Findings

| source | as written | input that shows it | evidently intended | confidence | as-written member | corrected member |
|---|---|---|---|---|---|---|
| vehicle-app-cpp-sdk-v1.0.3/sdk/src/sdk/vdb/grpc/duo/BrokerClient.cpp:143-146 | The read's reply handler first trims its log text with `str.substr(str.find("item ") + 5)`. For a response without an item the text is empty. `find` returns `npos`, `npos + 5` wraps to 4, and `substr(4)` throws `std::out_of_range`. The facade catches it, and `insertResult` is never reached. | a `GetResponse` with no `item` | The result resolves to an empty reply. The `has_item()` branch at line 153 exists for that case. | not executed; the response's other fields, if any, are not modelled | BrokerClient.ReplyWithoutItemNeverResolves | BrokerClient.OnGetReply |
| vehicle-app-cpp-sdk-v1.0.3/sdk/src/sdk/vdb/grpc/duo/BrokerClient.cpp:193-197 | The set's reply handler does the same trimming on the `CreateJobResponse` text. When that text has no "item " and is shorter than 4 characters, `substr` throws and the result is never resolved. | a `CreateJobResponse` with every field at its default, whose text rendering is empty | The result resolves to an empty error map on every ok status. | not executed; the response's fields are not part of this model | BrokerClient.TrimAfterItemThrows | BrokerClient.CompleteSet |
