/** The SDK's typed data-point value (sdk/DataPointValue.h is not part of this
    model): a path, a declared type, and either a failure reason or a payload
    of that type. Timestamps are left out. */
module DataPointValues {
  import opened Proto

  /** The element type of a scalar or array data point. */
  datatype ElemType =
    | BoolT
    | Int8 | Int16 | Int32 | Int64
    | UInt8 | UInt16 | UInt32 | UInt64
    | FloatT | DoubleT
    | StringT

  /** DataPointValue::Type: BOOL ... STRING, BOOL_ARRAY ... STRING_ARRAY, and
      every other enumerator (INVALID and the like) as Unsupported. */
  datatype DataType = Scalar(elem: ElemType) | Array(elem: ElemType) | Unsupported

  /** One element of a payload: int8..uint64 hold an IntElem, float and double a
      RealElem. */
  datatype Element =
    | BoolElem(b: bool)
    | IntElem(i: int)
    | RealElem(d: Double)
    | StringElem(s: string)

  datatype Payload = One(e: Element) | Many(es: seq<Element>)

  /** DataPointValue::Failure other than NONE. */
  datatype Failure = InvalidValueFailure | NotAvailable | UnknownDatapoint | AccessDenied | InternalError

  /** A failed value carries its reason, a valid one its payload. */
  datatype State = Failed(failure: Failure) | Holds(payload: Payload)

  datatype DataPointValue = DataPointValue(path: string, dtype: DataType, state: State)

  /** DataPointValue::isValid(). */
  predicate IsValid(v: DataPointValue)
  {
    v.state.Holds?
  }

  predicate IsIntegral(t: ElemType)
  {
    t.Int8? || t.Int16? || t.Int32? || t.Int64? || t.UInt8? || t.UInt16? || t.UInt32? || t.UInt64?
  }

  predicate IsUnsigned(t: ElemType)
  {
    t.UInt8? || t.UInt16? || t.UInt32? || t.UInt64?
  }

  /** std::numeric_limits<T>::min(). */
  function IntMin(t: ElemType): int
    requires IsIntegral(t)
  {
    match t
    case Int8 => -0x80
    case Int16 => -0x8000
    case Int32 => -0x8000_0000
    case Int64 => -0x8000_0000_0000_0000
    case _ => 0
  }

  /** std::numeric_limits<T>::max(). */
  function IntMax(t: ElemType): int
    requires IsIntegral(t)
  {
    match t
    case Int8 => 0x7F
    case Int16 => 0x7FFF
    case Int32 => 0x7FFF_FFFF
    case Int64 => 0x7FFF_FFFF_FFFF_FFFF
    case UInt8 => 0xFF
    case UInt16 => 0xFFFF
    case UInt32 => 0xFFFF_FFFF
    case _ => 0xFFFF_FFFF_FFFF_FFFF
  }

  /** An element that a TypedDataPointValue of element type `t` can hold. */
  predicate Fits(t: ElemType, e: Element)
  {
    match t
    case BoolT => e.BoolElem?
    case FloatT => e.RealElem?
    case DoubleT => e.RealElem?
    case StringT => e.StringElem?
    case _ => e.IntElem? && IntMin(t) <= e.i <= IntMax(t)
  }

  /** The payload is of the C++ type the declared type names (what the
      dynamic_cast in the converter checks). */
  predicate WellTyped(dtype: DataType, p: Payload)
  {
    match dtype
    case Scalar(t) => p.One? && Fits(t, p.e)
    case Array(t) => p.Many? && forall k :: 0 <= k < |p.es| ==> Fits(t, p.es[k])
    case Unsupported => false
  }
}
