/** DuoTypeConverter: converts typed data-point values to and from
    google.protobuf.Value, locates the leaf a dotted path names inside a nested
    value, and swaps the '.' and '/' path separators. */
module TypeConverter {
  import opened Wrappers
  import opened Strings
  import opened Proto
  import opened DataPointValues

  // ---------------------------------------------------------------------------
  // Library number conversions, left abstract
  // ---------------------------------------------------------------------------

  /** Outcome of std::stoll / std::stoull with base 0: no digits
      (std::invalid_argument), beyond long long / unsigned long long
      (std::out_of_range), or the value and the number of characters consumed. */
  datatype IntParse = NoConversion | OutOfRange | Parsed(value: int, consumed: nat)

  /** The C++ library conversions the converter calls, as parameters:
      std::stoll, std::stoull, std::stod (None when it throws) and the
      ostringstream rendering of a double. */
  datatype NumberText = NumberText(
    parseSigned: string -> IntParse,
    parseUnsigned: string -> IntParse,
    parseDouble: string -> Option<(Double, nat)>,
    render: Double -> string)

  /** What the C library guarantees of its integer parsers: a parsed value fits
      long long (resp. unsigned long long), and no more than the whole string is
      consumed. */
  ghost predicate Conforms(env: NumberText)
  {
    && (forall s :: env.parseSigned(s).Parsed? ==>
          -0x8000_0000_0000_0000 <= env.parseSigned(s).value <= 0x7FFF_FFFF_FFFF_FFFF
          && env.parseSigned(s).consumed <= |s|)
    && (forall s :: env.parseUnsigned(s).Parsed? ==>
          0 <= env.parseUnsigned(s).value <= 0xFFFF_FFFF_FFFF_FFFF
          && env.parseUnsigned(s).consumed <= |s|)
  }

  // ---------------------------------------------------------------------------
  // Messages of the exceptions the converter throws
  // ---------------------------------------------------------------------------

  const UnsupportedTypeMessage := "Unsupported datapoint type for Duo conversion."
  const TypeMismatchMessage := "DataPointValue type mismatch during Duo conversion."
  const PathNotPresentMessage := "Requested datapoint path not present in Duo payload: "
  const ExpectedListMessage := "Expected list value for array conversion."
  const BoolUnsupportedMessage := "Unsupported value type for boolean conversion."
  const DoubleUnsupportedMessage := "Unsupported value type for floating point conversion."
  const DoubleParseMessage := "Failed to parse floating point value from string."
  const StringUnsupportedMessage := "Unsupported value type for string conversion."
  const IntUnsupportedMessage := "Unsupported value type for integer conversion."
  const IntPartialMessage := "Non numeric characters encountered while parsing integer value."
  const IntParseMessage := "Failed to parse integer value from string."
  const IntRangeMessage := "Integer value out of range."
  const UnsignedRangeMessage := "Unsigned integer value out of range."
  const SignedRangeMessage := "Signed integer value out of range."
  const NonFiniteMessage := "Non finite number encountered while converting to integer."

  // ---------------------------------------------------------------------------
  // Path segments and leaf lookup
  // ---------------------------------------------------------------------------

  /** The dot-separated segments of a path, empty ones dropped. */
  function Segments(path: string): seq<string>
  {
    NonEmpty(Split(path, '.'))
  }

  /** Concatenation of the parts. */
  function Concat(parts: seq<string>): string
  {
    if |parts| == 0 then "" else parts[0] + Concat(parts[1..])
  }

  /** The characters of `s` other than `c`, in order. */
  function Without(s: string, c: char): string
  {
    if |s| == 0 then "" else (if s[0] == c then "" else [s[0]]) + Without(s[1..], c)
  }

  /** splitPath: walks the path from the left, cutting at each '.', and keeps
      the non-empty pieces. */
  method SplitPath(path: string) returns (segments: seq<string>)
    ensures segments == Segments(path)
    ensures forall k :: 0 <= k < |segments| ==> segments[k] != "" && '.' !in segments[k]
  {
    segments := [];
    var start := 0;
    assert path[start..] == path;
    while start < |path|
      invariant 0 <= start <= |path|
      invariant segments + NonEmpty(Split(path[start..], '.')) == Segments(path)
    {
      var piece, next := NextPiece(path, start);
      assert segments + (piece + NonEmpty(Split(path[next..], '.'))) ==
        (segments + piece) + NonEmpty(Split(path[next..], '.'));
      segments := segments + piece;
      start := next;
    }
    assert path[start..] == "";
    SegmentsAreClean(path);
  }

  /** One round of splitPath's loop from `start`: the text up to the next '.'
      (or to the end) is a segment, kept when it is not empty, and the loop
      goes on after the '.'. */
  method NextPiece(path: string, start: nat) returns (piece: seq<string>, next: nat)
    requires start < |path|
    ensures start < next <= |path|
    ensures piece + NonEmpty(Split(path[next..], '.')) == NonEmpty(Split(path[start..], '.'))
  {
    var found := FindFrom(path, '.', start);
    if found.None? {
      LastSegment(path[start..]);
      piece := [path[start..]];
      next := |path|;
      assert path[next..] == "";
    } else {
      var n := found.value;
      NextSegment(path, start, n);
      piece := if n > start then [path[start..n]] else [];
      next := n + 1;
    }
  }

  /** The rest of the path has no '.': it is the last segment. */
  lemma LastSegment(rest: string)
    requires rest != "" && '.' !in rest
    ensures NonEmpty(Split(rest, '.')) == [rest]
  {
    SplitNoSeparator(rest, '.');
  }


  /** The rest of the path up to the next '.' is one segment, kept when it is
      not empty; the segments after it come from the text after the '.'. */
  lemma NextSegment(path: string, start: nat, n: nat)
    requires start <= n < |path| && path[n] == '.' && '.' !in path[start..n]
    ensures NonEmpty(Split(path[start..], '.')) ==
      (if n > start then [path[start..n]] else []) + NonEmpty(Split(path[n + 1..], '.'))
  {
    assert path[start..] == path[start..n] + ['.'] + path[n + 1..];
    SplitAround(path[start..n], path[n + 1..], '.');
    SplitNoSeparator(path[start..n], '.');
    NonEmptyConcat([path[start..n]], Split(path[n + 1..], '.'));
  }

  lemma SegmentsAreClean(path: string)
    ensures forall k :: 0 <= k < |Segments(path)| ==> Segments(path)[k] != "" && '.' !in Segments(path)[k]
  {
    NonEmptyParts(Split(path, '.'));
    SplitPiecesFree(path, '.');
    forall k | 0 <= k < |Segments(path)| ensures '.' !in Segments(path)[k] {
      var p := Segments(path)[k];
      assert p in Split(path, '.');
    }
  }

  /** The segments hold exactly the characters of the path other than '.',
      in their original order. */
  lemma {:induction false} SegmentsKeepCharacters(path: string)
    ensures Concat(Segments(path)) == Without(path, '.')
  {
    if |path| > 0 {
      SegmentsKeepCharacters(path[1..]);
      var rest := Split(path[1..], '.');
      if path[0] == '.' {
        assert Split(path, '.') == [""] + rest;
        assert ([""] + rest)[1..] == rest;
        assert Segments(path) == Segments(path[1..]);
      } else {
        var head := [path[0]] + rest[0];
        assert Split(path, '.') == [head] + rest[1..];
        assert ([head] + rest[1..])[1..] == rest[1..];
        assert Segments(path) == [head] + NonEmpty(rest[1..]);
        var first: seq<string> := if rest[0] == "" then [] else [rest[0]];
        assert NonEmpty(rest) == first + NonEmpty(rest[1..]);
        ConcatAppend(first, NonEmpty(rest[1..]));
        assert Concat(first) == rest[0];
        ConcatAppend([head], NonEmpty(rest[1..]));
        assert Concat([head]) == head;
        assert Without(path, '.') == [path[0]] + Without(path[1..], '.');
      }
    }
  }

  lemma {:induction false} ConcatAppend(a: seq<string>, b: seq<string>)
    ensures Concat(a + b) == Concat(a) + Concat(b)
  {
    if |a| == 0 {
      assert a + b == b;
    } else {
      assert (a + b)[1..] == a[1..] + b;
      ConcatAppend(a[1..], b);
    }
  }

  /** Splitting a dot-joined list of clean segments gives the segments back. */
  lemma SegmentsOfJoin(segs: seq<string>)
    requires forall k :: 0 <= k < |segs| ==> segs[k] != "" && '.' !in segs[k]
    ensures Segments(Join('.', segs)) == segs
  {
    if |segs| > 0 {
      SplitJoin(segs, '.');
      NonEmptyOfNonEmpty(segs);
    }
  }

  /** accessField: the field under `key`, else the field under `key` with every
      '.' replaced by '/'. */
  function AccessField(fields: seq<(string, Value)>, key: string): Option<Value>
  {
    var direct := FindField(fields, key);
    if direct.Some? then direct else FindField(fields, Replace(key, '.', '/'))
  }

  /** The loop of locateLeaf from position `index` with node `current`. */
  function Walk(current: Value, segs: seq<string>, index: nat): Option<Value>
    decreases |segs| - index
  {
    if index >= |segs| then Some(current)
    else if !current.Struct? then Some(current)
    else
      var direct := AccessField(current.fields, segs[index]);
      var next := if direct.Some? then direct else AccessField(current.fields, Join('/', segs[index..]));
      if next.None? then None else Walk(next.value, segs, index + 1)
  }

  /** locateLeaf: None stands for nullptr (nothing found). */
  function Locate(root: Value, segs: seq<string>): Option<Value>
  {
    if !root.Struct? || |segs| == 0 then Some(root) else Walk(root, segs, 0)
  }

  method LocateLeaf(root: Value, segments: seq<string>) returns (leaf: Option<Value>)
    ensures leaf == Locate(root, segments)
    ensures !root.Struct? || |segments| == 0 ==> leaf == Some(root)
  {
    if !root.Struct? || |segments| == 0 {
      return Some(root);
    }
    var current := root;
    var index := 0;
    while index < |segments|
      invariant 0 <= index <= |segments|
      invariant Walk(current, segments, index) == Locate(root, segments)
    {
      if !current.Struct? {
        return Some(current);
      }
      var segment := segments[index];
      var next := AccessField(current.fields, segment);
      if next.None? {
        var combined := JoinRemaining(segments, index);
        next := AccessField(current.fields, combined);
      }
      if next.None? {
        return None;
      }
      current := next.value;
      index := index + 1;
    }
    return Some(current);
  }

  /** The fallback key of locateLeaf: the remaining segments joined with '/'. */
  method JoinRemaining(segments: seq<string>, index: nat) returns (combined: string)
    requires index < |segments|
    ensures combined == Join('/', segments[index..])
  {
    combined := segments[index];
    var remaining := index + 1;
    assert segments[index..remaining] == [segments[index]];
    while remaining < |segments|
      invariant index + 1 <= remaining <= |segments|
      invariant combined == Join('/', segments[index..remaining])
    {
      JoinSnoc('/', segments[index..remaining], segments[remaining]);
      assert segments[index..remaining + 1] == segments[index..remaining] + [segments[remaining]];
      combined := combined + "/" + segments[remaining];
      remaining := remaining + 1;
    }
    assert segments[index..remaining] == segments[index..];
  }

  /** Once the walk reaches a node that is not a struct, that node is the
      result, whatever segments remain. */
  lemma WalkStopsAtLeaf(current: Value, segs: seq<string>, index: nat)
    requires !current.Struct?
    ensures Walk(current, segs, index) == Some(current)
  {
  }

  /** The fallback: when a struct has no field named by the first segment, the
      whole remaining path joined by '/' is tried as one key. */
  lemma {:induction false} LocateCompoundKey(fields: seq<(string, Value)>, segs: seq<string>, leaf: Value)
    requires |segs| >= 1 && !leaf.Struct?
    requires forall k :: 0 <= k < |segs| ==> '.' !in segs[k]
    requires FindField(fields, segs[0]).None?
    requires FindField(fields, Join('/', segs)) == Some(leaf)
    ensures Locate(Struct(fields), segs) == Some(leaf)
  {
    ReplaceAbsent(segs[0], '.', '/');
    assert AccessField(fields, segs[0]).None?;
    assert segs[0..] == segs;
    JoinFree(segs, '/', '.');
    ReplaceAbsent(Join('/', segs), '.', '/');
    assert AccessField(fields, Join('/', segs[0..])) == Some(leaf);
    assert Walk(leaf, segs, 1) == Some(leaf);
  }

  /** A join of parts free of `c` with a separator other than `c` is free of `c`. */
  lemma {:induction false} JoinFree(parts: seq<string>, sep: char, c: char)
    requires sep != c
    requires forall k :: 0 <= k < |parts| ==> c !in parts[k]
    ensures c !in Join(sep, parts)
  {
    if |parts| > 1 {
      JoinFree(parts[1..], sep, c);
    }
  }

  // ---------------------------------------------------------------------------
  // Coercions from a protobuf Value
  // ---------------------------------------------------------------------------

  /** kEpsilon. */
  const Epsilon: real := 0.000001

  /** std::fabs(n) > bound; every comparison with NaN is false. */
  predicate AbsExceeds(n: Double, bound: real)
  {
    match n
    case Finite(r) => (if r < 0.0 then -r else r) > bound
    case NaN => false
    case _ => true
  }

  /** toLowerCopy: std::tolower in the "C" locale changes only 'A'..'Z'. */
  function ToLowerAscii(s: string): string
  {
    seq(|s|, i requires 0 <= i < |s| => if 'A' <= s[i] <= 'Z' then (s[i] as int + 32) as char else s[i])
  }

  /** convertToBool. */
  function ConvertToBool(v: Value): (r: Result<bool, Error>)
    ensures r.Success? <==>
      v.Bool? || v.Number? || (v.Str? && ToLowerAscii(v.s) in {"true", "1", "false", "0"})
    ensures r.Failure? ==> r.error == InvalidValue(BoolUnsupportedMessage)
    ensures v.Bool? ==> r == Success(v.b)
    ensures v.Number? ==> r == Success(AbsExceeds(v.n, Epsilon))
    ensures v.Str? && ToLowerAscii(v.s) in {"true", "1"} ==> r == Success(true)
    ensures v.Str? && ToLowerAscii(v.s) in {"false", "0"} ==> r == Success(false)
  {
    match v
    case Bool(b) => Success(b)
    case Number(n) => Success(AbsExceeds(n, Epsilon))
    case Str(s) =>
      var lowered := ToLowerAscii(s);
      if lowered == "true" || lowered == "1" then Success(true)
      else if lowered == "false" || lowered == "0" then Success(false)
      else Failure(InvalidValue(BoolUnsupportedMessage))
    case _ => Failure(InvalidValue(BoolUnsupportedMessage))
  }

  /** std::nearbyintl in the default rounding mode: to the nearest integer,
      halfway cases to the even one. */
  function RoundHalfEven(x: real): (r: int)
    ensures -0.5 <= r as real - x <= 0.5
    ensures (r as real - x == 0.5 || x - r as real == 0.5) ==> r % 2 == 0
  {
    var f := x.Floor;
    var frac := x - f as real;
    if frac < 0.5 then f
    else if frac > 0.5 then f + 1
    else if f % 2 == 0 then f
    else f + 1
  }

  /** The string branch of convertToIntegral for an unsigned target, given
      what std::stoull made of a string of `length` characters. */
  function UnsignedFromText(p: IntParse, length: nat, t: ElemType): (r: Result<int, Error>)
    requires IsIntegral(t)
    ensures r.Success? <==> p.Parsed? && p.consumed == length && p.value <= IntMax(t)
    ensures r.Success? ==> r.value == p.value
  {
    match p
    case NoConversion => Failure(InvalidValue(IntParseMessage))
    case OutOfRange => Failure(InvalidValue(IntRangeMessage))
    case Parsed(parsed, consumed) =>
      if consumed != length then Failure(InvalidValue(IntPartialMessage))
      else if parsed > IntMax(t) then Failure(InvalidValue(UnsignedRangeMessage))
      else Success(parsed)
  }

  /** The string branch of convertToIntegral for a signed target, given what
      std::stoll made of a string of `length` characters. */
  function SignedFromText(p: IntParse, length: nat, t: ElemType): (r: Result<int, Error>)
    requires IsIntegral(t)
    ensures r.Success? <==> p.Parsed? && p.consumed == length && IntMin(t) <= p.value <= IntMax(t)
    ensures r.Success? ==> r.value == p.value
  {
    match p
    case NoConversion => Failure(InvalidValue(IntParseMessage))
    case OutOfRange => Failure(InvalidValue(IntRangeMessage))
    case Parsed(parsed, consumed) =>
      if consumed != length then Failure(InvalidValue(IntPartialMessage))
      else if parsed < IntMin(t) || parsed > IntMax(t) then Failure(InvalidValue(SignedRangeMessage))
      else Success(parsed)
  }

  /** convertToIntegral<T> for the integral element type `t`. */
  function ConvertToIntegral(v: Value, t: ElemType, env: NumberText): (r: Result<int, Error>)
    requires IsIntegral(t)
    ensures v.Bool? ==> r == Success(if v.b then 1 else 0)
    ensures v.Number? && r.Success? ==> v.n.Finite? && r.value == RoundHalfEven(v.n.r)
    ensures (v.Number? || !IsUnsigned(t)) && r.Success? ==> IntMin(t) <= r.value <= IntMax(t)
    ensures v.Null? || v.List? || v.Struct? || v.Unset? ==> r == Failure(InvalidValue(IntUnsupportedMessage))
    ensures v.Number? ==> (r.Success? <==> v.n.Finite? && IntMin(t) <= RoundHalfEven(v.n.r) <= IntMax(t))
    ensures v.Number? && !v.n.Finite? ==> r == Failure(InvalidValue(NonFiniteMessage))
    ensures v.Number? && v.n.Finite? && r.Failure? ==> r.error == InvalidValue(IntRangeMessage)
    ensures v.Str? && IsUnsigned(t) ==> r == UnsignedFromText(env.parseUnsigned(v.s), |v.s|, t)
    ensures v.Str? && !IsUnsigned(t) ==> r == SignedFromText(env.parseSigned(v.s), |v.s|, t)
  {
    match v
    case Str(s) =>
      if IsUnsigned(t) then UnsignedFromText(env.parseUnsigned(s), |s|, t)
      else SignedFromText(env.parseSigned(s), |s|, t)
    case Bool(b) => Success(if b then 1 else 0)
    case Number(n) =>
      if !n.Finite? then Failure(InvalidValue(NonFiniteMessage))
      else
        var rounded := RoundHalfEven(n.r);
        if rounded < IntMin(t) || rounded > IntMax(t) then Failure(InvalidValue(IntRangeMessage))
        else Success(rounded)
    case _ => Failure(InvalidValue(IntUnsupportedMessage))
  }

  /** convertToDouble. Every failure of std::stod, and a partial parse, end in
      the same catch-all and hence the same message. */
  function ConvertToDouble(v: Value, env: NumberText): (r: Result<Double, Error>)
    ensures v.Number? ==> r == Success(v.n)
    ensures v.Bool? ==> r == Success(Finite(if v.b then 1.0 else 0.0))
    ensures v.Str? ==> (r.Success? <==> env.parseDouble(v.s).Some? && env.parseDouble(v.s).value.1 == |v.s|)
    ensures v.Str? && r.Success? ==> r.value == env.parseDouble(v.s).value.0
    ensures v.Str? && r.Failure? ==> r.error == InvalidValue(DoubleParseMessage)
    ensures v.Null? || v.List? || v.Struct? || v.Unset? ==> r == Failure(InvalidValue(DoubleUnsupportedMessage))
  {
    match v
    case Number(n) => Success(n)
    case Bool(b) => Success(Finite(if b then 1.0 else 0.0))
    case Str(s) =>
      (match env.parseDouble(s)
       case None => Failure(InvalidValue(DoubleParseMessage))
       case Some(parsed) =>
         if parsed.1 != |s| then Failure(InvalidValue(DoubleParseMessage)) else Success(parsed.0))
    case _ => Failure(InvalidValue(DoubleUnsupportedMessage))
  }

  /** convertToString. */
  function ConvertToString(v: Value, env: NumberText): (r: Result<string, Error>)
    ensures r.Success? <==> !v.List? && !v.Struct? && !v.Unset?
    ensures v.Str? ==> r == Success(v.s)
    ensures v.Null? ==> r == Success("")
    ensures v.Bool? ==> r == Success(if v.b then "true" else "false")
    ensures v.Number? ==> r == Success(env.render(v.n))
    ensures r.Failure? ==> r.error == InvalidValue(StringUnsupportedMessage)
  {
    match v
    case Str(s) => Success(s)
    case Bool(b) => Success(if b then "true" else "false")
    case Number(n) => Success(env.render(n))
    case Null => Success("")
    case _ => Failure(InvalidValue(StringUnsupportedMessage))
  }

  /** The converter the element type selects, its result wrapped as an element
      (float keeps the double: the narrowing cast is not modelled). */
  function ConvertElement(t: ElemType, v: Value, env: NumberText): Result<Element, Error>
  {
    match t
    case BoolT =>
      (match ConvertToBool(v) case Success(b) => Success(BoolElem(b)) case Failure(e) => Failure(e))
    case FloatT =>
      (match ConvertToDouble(v, env) case Success(d) => Success(RealElem(d)) case Failure(e) => Failure(e))
    case DoubleT =>
      (match ConvertToDouble(v, env) case Success(d) => Success(RealElem(d)) case Failure(e) => Failure(e))
    case StringT =>
      (match ConvertToString(v, env) case Success(s) => Success(StringElem(s)) case Failure(e) => Failure(e))
    case _ =>
      (match ConvertToIntegral(v, t, env) case Success(i) => Success(IntElem(i)) case Failure(e) => Failure(e))
  }

  /** The converter fromDuoValue hands to convertList for an array of `t`. */
  function ElementConverter(t: ElemType, env: NumberText): Value -> Result<Element, Error>
  {
    x => ConvertElement(t, x, env)
  }

  /** The converter applied to each item in turn; the first failure is thrown. */
  function ConvertEach(items: seq<Value>, converter: Value -> Result<Element, Error>): Result<seq<Element>, Error>
  {
    if |items| == 0 then Success([])
    else
      match ConvertEach(items[..|items| - 1], converter)
      case Failure(e) => Failure(e)
      case Success(done) =>
        match converter(items[|items| - 1])
        case Failure(e) => Failure(e)
        case Success(x) => Success(done + [x])
  }

  /** convertList: fails unless the value is a list, then converts each item. */
  function ConvertListOf(v: Value, converter: Value -> Result<Element, Error>): Result<seq<Element>, Error>
  {
    if !v.List? then Failure(InvalidValue(ExpectedListMessage)) else ConvertEach(v.items, converter)
  }

  /** Elementwise meaning of ConvertEach: it succeeds iff every item converts,
      with one converted element per item in the same order; otherwise it
      fails with the error of the first item that does not convert. */
  lemma {:induction false} ConvertEachElementwise(items: seq<Value>, converter: Value -> Result<Element, Error>)
    ensures ConvertEach(items, converter).Success? <==>
      forall k :: 0 <= k < |items| ==> converter(items[k]).Success?
    ensures ConvertEach(items, converter).Success? ==>
      |ConvertEach(items, converter).value| == |items| &&
      forall k :: 0 <= k < |items| ==> ConvertEach(items, converter).value[k] == converter(items[k]).value
    ensures ConvertEach(items, converter).Failure? ==>
      exists k :: 0 <= k < |items| && converter(items[k]).Failure?
        && ConvertEach(items, converter).error == converter(items[k]).error
        && forall j :: 0 <= j < k ==> converter(items[j]).Success?
  {
    if |items| > 0 {
      var init := items[..|items| - 1];
      ConvertEachElementwise(init, converter);
      var n := |items| - 1;
      if ConvertEach(init, converter).Failure? {
        var k :| 0 <= k < |init| && converter(init[k]).Failure?
          && ConvertEach(init, converter).error == converter(init[k]).error
          && forall j :: 0 <= j < k ==> converter(init[j]).Success?;
        assert items[k] == init[k];
        assert forall j :: 0 <= j < k ==> items[j] == init[j];
      } else if converter(items[n]).Failure? {
        assert forall j :: 0 <= j < n ==> items[j] == init[j];
      } else {
        assert forall j :: 0 <= j < n ==> items[j] == init[j];
      }
    }
  }

  method ConvertList(value: Value, converter: Value -> Result<Element, Error>) returns (r: Result<seq<Element>, Error>)
    ensures r == ConvertListOf(value, converter)
    ensures r.Success? ==> value.List? && |r.value| == |value.items|
    ensures r.Success? ==> forall k :: 0 <= k < |value.items| ==> Success(r.value[k]) == converter(value.items[k])
  {
    if !value.List? {
      return Failure(InvalidValue(ExpectedListMessage));
    }
    var items := value.items;
    var result: seq<Element> := [];
    var i := 0;
    while i < |items|
      invariant 0 <= i <= |items|
      invariant ConvertEach(items[..i], converter) == Success(result)
    {
      assert items[..i + 1][..i] == items[..i];
      var converted := converter(items[i]);
      if converted.Failure? {
        ConvertEachFailurePropagates(items, i + 1, converter);
        return Failure(converted.error);
      }
      result := result + [converted.value];
      i := i + 1;
    }
    assert items[..i] == items;
    r := Success(result);
    ConvertEachElementwise(items, converter);
  }

  /** A failure on a prefix is the failure of the whole list. */
  lemma {:induction false} ConvertEachFailurePropagates(items: seq<Value>, n: nat, converter: Value -> Result<Element, Error>)
    requires n <= |items|
    requires ConvertEach(items[..n], converter).Failure?
    ensures ConvertEach(items, converter) == ConvertEach(items[..n], converter)
    decreases |items| - n
  {
    if n < |items| {
      assert items[..n + 1][..n] == items[..n];
      ConvertEachFailurePropagates(items, n + 1, converter);
    } else {
      assert items[..n] == items;
    }
  }

  // ---------------------------------------------------------------------------
  // toDuoValue
  // ---------------------------------------------------------------------------

  /** One element on the wire: bool, number or string. */
  function EncodeElement(e: Element): Value
  {
    match e
    case BoolElem(b) => Bool(b)
    case IntElem(i) => Number(Finite(i as real))
    case RealElem(d) => Number(d)
    case StringElem(s) => Str(s)
  }

  /** toDuoValue: invalid values become null; a value of an unknown type, or
      whose payload is not of its declared type, throws InvalidTypeException. */
  function Encode(v: DataPointValue): Result<Value, Error>
  {
    if !IsValid(v) then Success(Null)
    else if v.dtype.Unsupported? then Failure(InvalidType(UnsupportedTypeMessage))
    else if !WellTyped(v.dtype, v.state.payload) then Failure(InvalidType(TypeMismatchMessage))
    else
      match v.state.payload
      case One(e) => Success(EncodeElement(e))
      case Many(es) => Success(List(seq(|es|, k requires 0 <= k < |es| => EncodeElement(es[k]))))
  }

  method ToDuoValue(v: DataPointValue) returns (r: Result<Value, Error>)
    ensures r == Encode(v)
    ensures !IsValid(v) ==> r == Success(Null)
    ensures IsValid(v) && v.dtype.Unsupported? ==> r == Failure(InvalidType(UnsupportedTypeMessage))
    ensures IsValid(v) && v.state.payload.One? && r.Success? ==>
      (r.value.Bool? || r.value.Number? || r.value.Str?)
    ensures IsValid(v) && v.state.payload.Many? && r.Success? ==>
      r.value.List? && |r.value.items| == |v.state.payload.es|
  {
    if !IsValid(v) {
      return Success(Null);
    }
    if v.dtype.Unsupported? {
      return Failure(InvalidType(UnsupportedTypeMessage));
    }
    if !WellTyped(v.dtype, v.state.payload) {
      return Failure(InvalidType(TypeMismatchMessage));
    }
    match v.state.payload {
      case One(e) =>
        r := Success(EncodeElement(e));
      case Many(es) =>
        var list: seq<Value> := [];
        for k := 0 to |es|
          invariant |list| == k
          invariant forall j :: 0 <= j < k ==> list[j] == EncodeElement(es[j])
        {
          list := list + [EncodeElement(es[k])];
        }
        assert list == seq(|es|, k requires 0 <= k < |es| => EncodeElement(es[k]));
        r := Success(List(list));
    }
  }

  // ---------------------------------------------------------------------------
  // fromDuoValue
  // ---------------------------------------------------------------------------

  /** fromDuoValue: locate the leaf the path names; missing leaf throws, a null
      leaf gives a NOT_AVAILABLE value of the expected type, otherwise the leaf
      is converted to the expected type. */
  function Decode(path: string, expected: DataType, root: Value, env: NumberText): Result<DataPointValue, Error>
  {
    match Locate(root, Segments(path))
    case None => Failure(InvalidValue(PathNotPresentMessage + path))
    case Some(leaf) => DecodeLeaf(path, expected, leaf, env)
  }

  /** fromDuoValue once the leaf is found: null is "not available" (unless the
      type is unsupported), anything else is converted to the expected type. */
  function DecodeLeaf(path: string, expected: DataType, leaf: Value, env: NumberText): Result<DataPointValue, Error>
  {
    if leaf.Null? then
      if expected.Unsupported? then Failure(InvalidType(UnsupportedTypeMessage))
      else Success(DataPointValue(path, expected, Failed(NotAvailable)))
    else
      match expected
      case Unsupported => Failure(InvalidType(UnsupportedTypeMessage))
      case Scalar(t) =>
        (match ConvertElement(t, leaf, env)
         case Success(e) => Success(DataPointValue(path, expected, Holds(One(e))))
         case Failure(err) => Failure(err))
      case Array(t) =>
        (match ConvertListOf(leaf, ElementConverter(t, env))
         case Success(es) => Success(DataPointValue(path, expected, Holds(Many(es))))
         case Failure(err) => Failure(err))
  }

  method FromDuoValue(path: string, expected: DataType, value: Value, env: NumberText)
    returns (r: Result<DataPointValue, Error>)
    ensures r == Decode(path, expected, value, env)
    ensures Locate(value, Segments(path)).None? ==> r == Failure(InvalidValue(PathNotPresentMessage + path))
    ensures Locate(value, Segments(path)) == Some(Null) && !expected.Unsupported? ==>
      r == Success(DataPointValue(path, expected, Failed(NotAvailable)))
    ensures r.Success? ==> r.value.path == path && r.value.dtype == expected
  {
    var segments := SplitPath(path);
    var leaf := LocateLeaf(value, segments);
    if leaf.None? {
      return Failure(InvalidValue(PathNotPresentMessage + path));
    }
    var node := leaf.value;
    if node.Null? {
      if expected.Unsupported? {
        return Failure(InvalidType(UnsupportedTypeMessage));
      }
      return Success(DataPointValue(path, expected, Failed(NotAvailable)));
    }
    match expected {
      case Unsupported =>
        r := Failure(InvalidType(UnsupportedTypeMessage));
      case Scalar(t) =>
        var converted := ConvertElement(t, node, env);
        r := if converted.Success? then Success(DataPointValue(path, expected, Holds(One(converted.value))))
             else Failure(converted.error);
      case Array(t) =>
        var converted := ConvertList(node, ElementConverter(t, env));
        r := if converted.Success? then Success(DataPointValue(path, expected, Holds(Many(converted.value))))
             else Failure(converted.error);
    }
  }

  // ---------------------------------------------------------------------------
  // toDuoPath / toInternalPath
  // ---------------------------------------------------------------------------

  /** std::replace over a character buffer. */
  method ReplaceInPlace(a: array<char>, from: char, to: char)
    modifies a
    ensures a[..] == Replace(old(a[..]), from, to)
  {
    for k := 0 to a.Length
      invariant forall j :: 0 <= j < k ==> a[j] == (if old(a[j]) == from then to else old(a[j]))
      invariant forall j :: k <= j < a.Length ==> a[j] == old(a[j])
    {
      if a[k] == from {
        a[k] := to;
      }
    }
  }

  method ToDuoPath(path: string) returns (converted: string)
    ensures converted == Replace(path, '.', '/')
    ensures |converted| == |path| && '.' !in converted
  {
    var buffer := new char[|path|](k requires 0 <= k < |path| => path[k]);
    ReplaceInPlace(buffer, '.', '/');
    converted := buffer[..];
  }

  method ToInternalPath(path: string) returns (converted: string)
    ensures converted == Replace(path, '/', '.')
    ensures |converted| == |path| && '/' !in converted
  {
    var buffer := new char[|path|](k requires 0 <= k < |path| => path[k]);
    ReplaceInPlace(buffer, '/', '.');
    converted := buffer[..];
  }

  /** toDuoPath is idempotent. */
  lemma DuoPathIdempotent(path: string)
    ensures Replace(Replace(path, '.', '/'), '.', '/') == Replace(path, '.', '/')
  {
  }

  /** toInternalPath undoes toDuoPath on a path without '/'. */
  lemma InternalPathUndoesDuoPath(path: string)
    requires '/' !in path
    ensures Replace(Replace(path, '.', '/'), '/', '.') == path
  {
  }

  // ---------------------------------------------------------------------------
  // Properties of the codec
  // ---------------------------------------------------------------------------

  lemma RoundOfInteger(i: int)
    ensures RoundHalfEven(i as real) == i
  {
  }

  /** An element read back from its own encoding under its own type is unchanged. */
  lemma ElementRoundTrip(t: ElemType, e: Element, env: NumberText)
    requires Fits(t, e)
    ensures ConvertElement(t, EncodeElement(e), env) == Success(e)
  {
    if IsIntegral(t) {
      RoundOfInteger(e.i);
    }
  }

  /** Decoding an encoded value under its own type gives it back (under the
      requested path); an invalid value comes back as NOT_AVAILABLE. */
  lemma DecodeEncode(v: DataPointValue, path: string, env: NumberText)
    requires !v.dtype.Unsupported?
    requires IsValid(v) ==> WellTyped(v.dtype, v.state.payload)
    ensures Encode(v).Success?
    ensures Decode(path, v.dtype, Encode(v).value, env) ==
      Success(DataPointValue(path, v.dtype, if IsValid(v) then v.state else Failed(NotAvailable)))
  {
    if IsValid(v) {
      match v.state.payload {
        case One(e) =>
          ElementRoundTrip(v.dtype.elem, e, env);
        case Many(es) =>
          var t := v.dtype.elem;
          var items := seq(|es|, k requires 0 <= k < |es| => EncodeElement(es[k]));
          var converter := ElementConverter(t, env);
          assert Encode(v) == Success(List(items));
          forall k | 0 <= k < |items| ensures converter(items[k]) == Success(es[k]) {
            ElementRoundTrip(t, es[k], env);
          }
          ConvertEachElementwise(items, converter);
          assert ConvertEach(items, converter).value == es;
      }
    }
  }

  /** What fromDuoValue produces is well typed: a valid result holds a payload
      of the expected type (integers in the target range). */
  lemma DecodeWellTyped(path: string, expected: DataType, root: Value, env: NumberText)
    requires Conforms(env)
    requires Decode(path, expected, root, env).Success?
    ensures var d := Decode(path, expected, root, env).value;
      IsValid(d) ==> WellTyped(expected, d.state.payload)
  {
    var leaf := Locate(root, Segments(path)).value;
    assert Decode(path, expected, root, env) == DecodeLeaf(path, expected, leaf, env);
    LeafWellTyped(path, expected, leaf, env);
  }

  lemma LeafWellTyped(path: string, expected: DataType, leaf: Value, env: NumberText)
    requires Conforms(env)
    requires DecodeLeaf(path, expected, leaf, env).Success?
    ensures var d := DecodeLeaf(path, expected, leaf, env).value;
      IsValid(d) ==> WellTyped(expected, d.state.payload)
  {
    if !leaf.Null? {
      match expected {
        case Scalar(t) =>
          ElementFits(t, leaf, env);
        case Array(t) =>
          ListElementsFit(t, leaf, env);
        case Unsupported =>
      }
    }
  }

  /** Every element of a converted list fits the element type. */
  lemma ListElementsFit(t: ElemType, leaf: Value, env: NumberText)
    requires Conforms(env)
    requires ConvertListOf(leaf, ElementConverter(t, env)).Success?
    ensures WellTyped(Array(t), Many(ConvertListOf(leaf, ElementConverter(t, env)).value))
  {
    var converter := ElementConverter(t, env);
    ConvertEachElementwise(leaf.items, converter);
    var es := ConvertListOf(leaf, converter).value;
    forall k | 0 <= k < |es| ensures Fits(t, es[k]) {
      ElementFits(t, leaf.items[k], env);
    }
  }

  lemma ElementFits(t: ElemType, v: Value, env: NumberText)
    requires Conforms(env)
    requires ConvertElement(t, v, env).Success?
    ensures Fits(t, ConvertElement(t, v, env).value)
  {
    if IsIntegral(t) {
      IntegralElementFits(t, v, env);
    } else {
      OtherElementFits(t, v, env);
    }
  }

  lemma IntegralElementFits(t: ElemType, v: Value, env: NumberText)
    requires Conforms(env) && IsIntegral(t)
    requires ConvertElement(t, v, env).Success?
    ensures Fits(t, ConvertElement(t, v, env).value)
  {
    assert ConvertElement(t, v, env) == Success(IntElem(ConvertToIntegral(v, t, env).value));
    IntegralInRange(v, t, env);
  }

  lemma OtherElementFits(t: ElemType, v: Value, env: NumberText)
    requires !IsIntegral(t)
    requires ConvertElement(t, v, env).Success?
    ensures Fits(t, ConvertElement(t, v, env).value)
  {
  }

  /** Every integer convertToIntegral returns lies in the target type's range. */
  lemma IntegralInRange(v: Value, t: ElemType, env: NumberText)
    requires Conforms(env) && IsIntegral(t)
    requires ConvertToIntegral(v, t, env).Success?
    ensures IntMin(t) <= ConvertToIntegral(v, t, env).value <= IntMax(t)
  {
    match v {
      case Bool(_) =>
        assert IntMin(t) <= 0 && 1 <= IntMax(t);
      case Str(s) =>
        if IsUnsigned(t) {
          UnsignedParseInRange(s, t, env);
        }
      case _ =>
    }
  }

  lemma UnsignedParseInRange(s: string, t: ElemType, env: NumberText)
    requires Conforms(env) && IsIntegral(t) && IsUnsigned(t)
    requires ConvertToIntegral(Str(s), t, env).Success?
    ensures IntMin(t) <= ConvertToIntegral(Str(s), t, env).value <= IntMax(t)
  {
    var p := env.parseUnsigned(s);
    assert ConvertToIntegral(Str(s), t, env) == UnsignedFromText(p, |s|, t);
  }

  // Worked cases of the coercion rules

  lemma BoolCoercionCases()
    ensures ConvertToBool(Number(Finite(0.0000001))) == Success(false)
    ensures ConvertToBool(Number(Finite(2.0))) == Success(true)
    ensures ConvertToBool(Str("TRUE")) == Success(true)
    ensures ConvertToBool(Str("maybe")).Failure?
    ensures ConvertToBool(Null).Failure?
  {
    assert ToLowerAscii("TRUE") == "true";
    assert ToLowerAscii("maybe") == "maybe";
  }

  lemma IntegralCoercionCases(env: NumberText)
    ensures ConvertToIntegral(Number(Finite(3.5)), Int8, env) == Success(4)
    ensures ConvertToIntegral(Number(Finite(2.5)), Int8, env) == Success(2)
    ensures ConvertToIntegral(Number(Finite(1000.0)), Int8, env) == Failure(InvalidValue(IntRangeMessage))
    ensures ConvertToIntegral(Number(NaN), Int64, env) == Failure(InvalidValue(NonFiniteMessage))
  {
  }
}
