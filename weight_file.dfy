/** The weight-dump format read by the char-RNN sample
    (`SampleCharRNN::loadWeights`): a decimal entry count, then for every
    entry `<name> <type> (<d1>,<d2>,...)`, one separator byte, the entry's
    raw bytes, and one trailing byte (a newline).

    The file is a sequence of bytes and the reader a cursor into it. Every
    lexical step is a function of the bytes and the cursor; the loop that
    drives them is `Loop`, one iteration of it `Step`. The imperative reader
    in module CharRnn is proved to compute `LoadWeightsSpec`. */
module WeightFile {
  import opened Results
  import opened Bytes
  import opened Arith

  /** A weight name: the bytes of a whitespace-delimited token. */
  type Name = seq<byte>

  /** `nvinfer1::Weights` together with the bytes it points at. */
  datatype Weights = Weights(dataType: nat, values: seq<byte>, count: nat)

  /** The ways a read of the file fails: each is a failed stream extraction,
      a failed `assert`, or an exception thrown while parsing. */
  datatype LoadError =
    | MalformedCount      // `input >> count` extracts no int32
    | NonPositiveCount    // `assert(count > 0)`
    | MissingName         // `input >> name` extracts nothing
    | MalformedType       // `input >> type` extracts no uint32
    | MissingShape        // no `(` or no `)` before the end of the file
    | MalformedDimension  // `std::stoul` throws on a shape field
    | UnknownDataType     // `getElementSize` throws on the type id
    | Truncated           // `input.read` runs past the end of the file

  /** A header as far as the closing parenthesis of its shape. */
  datatype EntryHeader = EntryHeader(
    name: Name,
    dataType: nat,
    dims: seq<nat>,
    count: nat,      // elements: the product of dims
    numBytes: nat,   // getElementSize(dataType) * count
    shapeEnd: nat)   // file position just past `)`

  /** A value read by one extraction, and the cursor after it. */
  datatype Lexeme<+T> = Lexeme(value: T, end: nat)

  /** The reader's state between two iterations of `while (count--)`. */
  datatype LoadState = LoadState(pos: nat, pending: set<Name>, weights: map<Name, Weights>)

  const Space: byte := 0x20
  const OpenParen: byte := 0x28
  const CloseParen: byte := 0x29
  const Plus: byte := 0x2B
  const Comma: byte := 0x2C
  const Minus: byte := 0x2D
  const Zero: byte := 0x30

  const Int32Min: int := -0x8000_0000
  const Int32Max: nat := 0x7fff_ffff
  const UInt32Limit: nat := 0x1_0000_0000
  const ULongLimit: nat := 0x1_0000_0000_0000_0000

  /** `isspace` in the C locale. */
  predicate IsSpace(b: byte) { b == 0x20 || 0x09 <= b <= 0x0D }

  predicate IsDigit(b: byte) { Zero <= b <= 0x39 }

  /** Bytes of element type `dataType` (`samplesCommon::getElementSize`):
      kFLOAT = 0, kHALF = 1, kINT8 = 2, kINT32 = 3; any other id throws. */
  function ElementSize(dataType: nat): (r: Option<nat>)
    ensures r.Some? <==> dataType < 4
    ensures r.Some? ==> 1 <= r.value <= 4
  {
    match dataType
    case 0 => Some(4)
    case 1 => Some(2)
    case 2 => Some(1)
    case 3 => Some(4)
    case _ => None
  }

  /** Product of the shape dimensions; 1 for the empty shape `()`. */
  function Product(dims: seq<nat>): nat
  {
    if dims == [] then 1 else dims[0] * Product(dims[1..])
  }

  /** The value of a run of decimal digits. */
  function DecimalValue(ds: seq<byte>): nat
    requires forall i :: 0 <= i < |ds| ==> IsDigit(ds[i])
  {
    if ds == [] then 0
    else
      var last := ds[|ds| - 1];
      assert IsDigit(last);
      10 * DecimalValue(ds[..|ds| - 1]) + (last - Zero) as nat
  }

  /** The first position at or after `from` that is not white space. */
  function SkipSpaces(s: seq<byte>, from: nat): (p: nat)
    ensures from <= p
    ensures p > |s| ==> p == from
    ensures forall i :: from <= i < p ==> i < |s| && IsSpace(s[i])
    ensures p < |s| ==> !IsSpace(s[p])
    decreases |s| - from
  {
    if from < |s| && IsSpace(s[from]) then SkipSpaces(s, from + 1) else from
  }

  /** The end of the run of non-space bytes starting at `from`. */
  function TokenEnd(s: seq<byte>, from: nat): (p: nat)
    ensures from <= p
    ensures p > |s| ==> p == from
    ensures forall i :: from <= i < p ==> i < |s| && !IsSpace(s[i])
    ensures p < |s| ==> IsSpace(s[p])
    decreases |s| - from
  {
    if from < |s| && !IsSpace(s[from]) then TokenEnd(s, from + 1) else from
  }

  /** The end of the run of decimal digits starting at `from`. */
  function DigitsEnd(s: seq<byte>, from: nat): (p: nat)
    ensures from <= p
    ensures p > |s| ==> p == from
    ensures forall i :: from <= i < p ==> i < |s| && IsDigit(s[i])
    ensures p < |s| ==> !IsDigit(s[p])
    decreases |s| - from
  {
    if from < |s| && IsDigit(s[from]) then DigitsEnd(s, from + 1) else from
  }

  /** The first occurrence of `b` at or after `from`. */
  function FindByte(s: seq<byte>, from: nat, b: byte): (r: Option<nat>)
    ensures r.Some? ==> from <= r.value < |s| && s[r.value] == b
    ensures r.Some? ==> forall i :: from <= i < r.value ==> s[i] != b
    ensures r.None? ==> forall i :: from <= i < |s| ==> s[i] != b
    decreases |s| - from
  {
    if from >= |s| then None
    else if s[from] == b then Some(from)
    else FindByte(s, from + 1, b)
  }

  /** `input >> str`: skip white space, take the non-space bytes after it.
      The token is preceded only by white space and runs up to the next
      white space or the end of the file; with nothing but white space
      left, the extraction fails. */
  function ReadToken(s: seq<byte>, from: nat): (r: Option<Lexeme<Name>>)
    ensures r.Some? ==> |r.value.value| > 0 && r.value.end <= |s|
    ensures r.Some? ==> forall i :: 0 <= i < |r.value.value| ==> !IsSpace(r.value.value[i])
  {
    var start := SkipSpaces(s, from);
    var end := TokenEnd(s, start);
    if start == end then None else Some(Lexeme(s[start..end], end))
  }

  /** The token `ReadToken` takes is preceded only by white space and runs
      up to the next white space or the end of the input; it fails only
      when nothing but white space is left. */
  lemma TokenMaximal(s: seq<byte>, from: nat)
    ensures var r := ReadToken(s, from);
      r.Some? ==>
      var begin := r.value.end - |r.value.value|;
      && from <= begin
      && r.value.value == s[begin..r.value.end]
      && (forall i :: from <= i < begin ==> IsSpace(s[i]))
      && (r.value.end == |s| || IsSpace(s[r.value.end]))
    ensures ReadToken(s, from).None? ==> forall i :: from <= i < |s| ==> IsSpace(s[i])
  {
  }

  /** A number as `num_get` (`>>`) and `strtoul` scan it: an optional sign
      and a run of decimal digits. */
  datatype Numeral = Numeral(negative: bool, magnitude: nat)

  /** Just past the optional `+` or `-` at `start`. */
  function SignEnd(s: seq<byte>, start: nat): nat
  {
    if start < |s| && (s[start] == Plus || s[start] == Minus) then start + 1 else start
  }

  /** The scan shared by `input >> n` and `std::stoul`: white space, an
      optional sign, then at least one decimal digit; the numeral ends at
      the first byte that is not a digit. */
  function ReadNumeral(s: seq<byte>, from: nat): (r: Option<Lexeme<Numeral>>)
    ensures r.Some? ==> from < r.value.end <= |s|
    ensures r.Some? ==> r.value.end == |s| || !IsDigit(s[r.value.end])
  {
    var start := SkipSpaces(s, from);
    var digits := SignEnd(s, start);
    var end := DigitsEnd(s, digits);
    if digits == end then None
    else Some(Lexeme(Numeral(start < |s| && s[start] == Minus, DecimalValue(s[digits..end])), end))
  }

  /** The numeral `ReadNumeral` takes: after white space and an optional
      sign, the longest run of digits, which must not be empty; its sign is
      `-` exactly when a minus sign was read, its magnitude the decimal
      value of the digits. */
  lemma NumeralScan(s: seq<byte>, from: nat)
    ensures var r := ReadNumeral(s, from);
      r.Some? ==>
      var start := SkipSpaces(s, from);
      var digits := SignEnd(s, start);
      && digits < r.value.end
      && (forall i :: digits <= i < r.value.end ==> IsDigit(s[i]))
      && r.value.value.negative == (start < |s| && s[start] == Minus)
      && r.value.value.magnitude == DecimalValue(s[digits..r.value.end])
    ensures ReadNumeral(s, from).None? ==>
      var digits := SignEnd(s, SkipSpaces(s, from));
      digits >= |s| || !IsDigit(s[digits])
  {
  }

  /** The value of a numeral with its sign. */
  function SignedValue(n: Numeral): int
  {
    if n.negative then -(n.magnitude as int) else n.magnitude
  }

  /** A numeral stored in an unsigned type with `limit` values, as both
      `num_get` and `strtoul` do it: a magnitude of `limit` or more is out of
      range, a negative one is taken modulo `limit`. */
  function UnsignedValue(n: Numeral, limit: nat): (r: Option<nat>)
    requires limit > 0
    ensures r.Some? <==> n.magnitude < limit
    ensures r.Some? ==> r.value < limit && (r.value == SignedValue(n) || r.value == SignedValue(n) + limit)
  {
    if n.magnitude >= limit then None
    else if n.negative && n.magnitude > 0 then Some(limit - n.magnitude)
    else Some(n.magnitude)
  }

  /** The pieces `std::getline(stream, piece, ',')` yields: split at every
      comma, except that nothing follows a final comma and the empty text
      yields no piece at all. */
  function SplitFields(s: seq<byte>): (fields: seq<seq<byte>>)
    ensures forall f :: f in fields ==> Comma !in f
    ensures s == [] <==> fields == []
    decreases |s|
  {
    if s == [] then []
    else match FindByte(s, 0, Comma)
      case None => [s]
      case Some(i) => [s[..i]] + SplitFields(s[i + 1..])
  }

  /** `std::stoul` of one shape field: leading white space, an optional
      sign, at least one digit; whatever follows the digits is ignored. It
      throws when there is no numeral or its magnitude does not fit an
      `unsigned long`, and negates a negative one modulo 2^64. */
  function ParseDimension(field: seq<byte>): (r: Result<nat, LoadError>)
    ensures r.Ok? <==> ReadNumeral(field, 0).Some? && ReadNumeral(field, 0).value.value.magnitude < ULongLimit
    ensures r.Ok? ==> var v := SignedValue(ReadNumeral(field, 0).value.value);
                      r.value < ULongLimit && (r.value == v || r.value == v + ULongLimit)
  {
    match ReadNumeral(field, 0)
    case None => Err(MalformedDimension)
    case Some(d) =>
      match UnsignedValue(d.value, ULongLimit)
      case None => Err(MalformedDimension)
      case Some(v) => Ok(v)
  }

  /** Every field of the shape text, in order; the first field that does
      not parse fails the whole shape. */
  function ParseDimensions(fields: seq<seq<byte>>): (r: Result<seq<nat>, LoadError>)
    ensures r.Ok? <==> forall i :: 0 <= i < |fields| ==> ParseDimension(fields[i]).Ok?
    ensures r.Ok? ==> |r.value| == |fields|
    ensures r.Ok? ==> forall i :: 0 <= i < |fields| ==> ParseDimension(fields[i]) == Ok(r.value[i])
  {
    if fields == [] then Ok([])
    else match ParseDimension(fields[0])
      case Err(e) => Err(e)
      case Ok(d) =>
        match ParseDimensions(fields[1..])
        case Err(e) => Err(e)
        case Ok(ds) => Ok([d] + ds)
  }

  /** The text between the parentheses of a shape: one dimension per
      comma-separated field, none for `()`. */
  function ParseShape(text: seq<byte>): (r: Result<seq<nat>, LoadError>)
    ensures r.Ok? <==> forall f :: f in SplitFields(text) ==> ParseDimension(f).Ok?
    ensures r.Ok? ==> |r.value| == |SplitFields(text)|
  {
    ParseDimensions(SplitFields(text))
  }

  /** `std::getline(std::getline(input, temp, '('), shape, ')')`: the text
      up to the next `(` is dropped, the text from there to the next `)` is
      the shape, and the cursor ends just past the `)`. */
  function ReadShapeText(file: seq<byte>, from: nat): (r: Option<Lexeme<seq<byte>>>)
    ensures r.Some? ==> from < r.value.end <= |file| && file[r.value.end - 1] == CloseParen
  {
    match FindByte(file, from, OpenParen)
    case None => None
    case Some(open) =>
      match FindByte(file, open + 1, CloseParen)
      case None => None
      case Some(close) => Some(Lexeme(file[open + 1..close], close + 1))
  }

  /** The shape text is what lies between the first `(` at or after the
      cursor and the first `)` after that; it holds no `)`. */
  lemma ShapeTextBetweenParens(file: seq<byte>, from: nat)
    ensures var r := ReadShapeText(file, from);
      r.Some? ==>
      var close := r.value.end - 1;
      var open := close - |r.value.value| - 1;
      && from <= open && file[open] == OpenParen
      && (forall i :: from <= i < open ==> file[i] != OpenParen)
      && r.value.value == file[open + 1..close]
      && CloseParen !in r.value.value
  {
    match FindByte(file, from, OpenParen)
    case None =>
    case Some(open) =>
      match FindByte(file, open + 1, CloseParen)
      case None =>
      case Some(close) =>
        var text := file[open + 1..close];
        assert forall j :: 0 <= j < |text| ==> text[j] == file[open + 1 + j];
  }

  /** The bytes taken by `count` elements of `size` bytes each. */
  function ByteCount(size: nat, count: nat): nat
  {
    MulMono(0, size, count);
    size * count
  }

  /** The header of the entry that starts at `pos`: its name, its data type
      id as an `uint32_t`, and its shape up to the closing parenthesis. */
  function ParseEntryHeader(file: seq<byte>, pos: nat): (r: Result<EntryHeader, LoadError>)
    ensures r.Ok? ==> |r.value.name| > 0
    ensures r.Ok? ==> r.value.count == Product(r.value.dims)
    ensures r.Ok? ==> (ElementSize(r.value.dataType).Some? &&
                       r.value.numBytes == ByteCount(ElementSize(r.value.dataType).value, r.value.count))
    ensures r.Ok? ==> pos < r.value.shapeEnd <= |file|
  {
    match ReadToken(file, pos)
    case None => Err(MissingName)
    case Some(name) =>
      match ReadNumeral(file, name.end)
      case None => Err(MalformedType)
      case Some(typeText) =>
        match UnsignedValue(typeText.value, UInt32Limit)
        case None => Err(MalformedType)
        case Some(dataType) =>
          match ReadShapeText(file, typeText.end)
          case None => Err(MissingShape)
          case Some(shape) =>
            match ParseShape(shape.value)
            case Err(e) => Err(e)
            case Ok(dims) =>
              match ElementSize(dataType)
              case None => Err(UnknownDataType)
              case Some(size) =>
                Ok(EntryHeader(name.value, dataType, dims, Product(dims), ByteCount(size, Product(dims)), shape.end))
  }

  /** A header ends just past the `)` that closes its shape. */
  lemma HeaderEndsAtParen(file: seq<byte>, pos: nat)
    ensures var r := ParseEntryHeader(file, pos);
      r.Ok? ==> file[r.value.shapeEnd - 1] == CloseParen
  {
    match ReadToken(file, pos)
    case None =>
    case Some(name) =>
      match ReadNumeral(file, name.end)
      case None =>
      case Some(typeText) =>
        match ReadShapeText(file, typeText.end)
        case None =>
        case Some(shape) =>
  }

  /** The bytes that follow the separator after the shape. */
  function EntryData(file: seq<byte>, h: EntryHeader): (data: seq<byte>)
    requires h.shapeEnd + 1 + h.numBytes <= |file|
    ensures |data| == h.numBytes
    ensures forall i :: 0 <= i < h.numBytes ==> data[i] == file[h.shapeEnd + 1 + i]
  {
    file[h.shapeEnd + 1..h.shapeEnd + 1 + h.numBytes]
  }

  /** The header parser the loop runs, passed as a value so that the
      properties of the loop hold for any parser. */
  type HeaderParser = nat -> Result<EntryHeader, LoadError>

  /** The parser of this file format. */
  function HeadersOf(file: seq<byte>): HeaderParser
  {
    (pos: nat) => ParseEntryHeader(file, pos)
  }

  /** One iteration of the reader's loop at a state whose pending set is not
      empty: an entry whose name is not pending is skipped with one seek; a
      pending one is erased from the set, read, and stored. */
  function Step(file: seq<byte>, parse: HeaderParser, st: LoadState): (r: Result<LoadState, LoadError>)
    ensures r.Ok? ==> parse(st.pos).Ok?
    ensures r.Ok? ==> var h := parse(st.pos).value;
      r.value.pos == h.shapeEnd + 2 + h.numBytes
    ensures r.Ok? ==> r.value.pending <= st.pending
                      && r.value.weights.Keys + r.value.pending == st.weights.Keys + st.pending
  {
    match parse(st.pos)
    case Err(e) => Err(e)
    case Ok(h) =>
      if h.name !in st.pending then
        Ok(LoadState(h.shapeEnd + (2 + h.numBytes), st.pending, st.weights))
      else
        var dataStart := h.shapeEnd + 1;
        if dataStart + h.numBytes > |file| then Err(Truncated)
        else
          var stored := Weights(h.dataType, EntryData(file, h), h.count);
          Ok(LoadState(dataStart + h.numBytes + 1, st.pending - {h.name}, st.weights[h.name := stored]))
  }

  /** `while (count--)` with the early exit once nothing is pending. */
  function Loop(file: seq<byte>, parse: HeaderParser, st: LoadState, remaining: nat): (r: Result<LoadState, LoadError>)
    ensures r.Ok? ==> r.value.pending <= st.pending
                      && r.value.weights.Keys + r.value.pending == st.weights.Keys + st.pending
    decreases remaining
  {
    if remaining == 0 || st.pending == {} then Ok(st)
    else match Step(file, parse, st)
      case Err(e) => Err(e)
      case Ok(next) => Loop(file, parse, next, remaining - 1)
  }

  /** `input >> count` for the `int32_t` entry count: the signed numeral at
      the start of the file, which must fit an `int32_t`. */
  function ReadCount(file: seq<byte>): (r: Result<Lexeme<int>, LoadError>)
    ensures r.Ok? <==> ReadNumeral(file, 0).Some?
                       && Int32Min <= SignedValue(ReadNumeral(file, 0).value.value) <= Int32Max
    ensures r.Ok? ==> r.value.value == SignedValue(ReadNumeral(file, 0).value.value)
                      && r.value.end == ReadNumeral(file, 0).value.end
  {
    match ReadNumeral(file, 0)
    case None => Err(MalformedCount)
    case Some(c) =>
      var v := SignedValue(c.value);
      if v < Int32Min || v > Int32Max then Err(MalformedCount) else Ok(Lexeme(v, c.end))
  }

  /** The whole reader: the final state holds the weight map and what is
      left of the requested names. */
  function LoadWeightsSpec(file: seq<byte>, requested: set<Name>): (r: Result<LoadState, LoadError>)
    ensures r.Ok? <==> ReadCount(file).Ok? && ReadCount(file).value.value > 0
                       && Loop(file, HeadersOf(file), LoadState(ReadCount(file).value.end, requested, map[]),
                               ReadCount(file).value.value).Ok?
    ensures ReadCount(file).Err? ==> r == Err(MalformedCount)
    ensures ReadCount(file).Ok? && ReadCount(file).value.value <= 0 ==> r == Err(NonPositiveCount)
    ensures r.Ok? ==> r.value.pending <= requested && r.value.weights.Keys + r.value.pending == requested
  {
    match ReadCount(file)
    case Err(e) => Err(e)
    case Ok(c) =>
      if c.value <= 0 then Err(NonPositiveCount)
      else Loop(file, HeadersOf(file), LoadState(c.end, requested, map[]), c.value)
  }

  /** The headers the loop parses, in file order. */
  function Trace(file: seq<byte>, parse: HeaderParser, st: LoadState, remaining: nat): seq<EntryHeader>
    decreases remaining
  {
    if remaining == 0 || st.pending == {} then []
    else match Step(file, parse, st)
      case Err(_) => []
      case Ok(next) => [parse(st.pos).value] + Trace(file, parse, next, remaining - 1)
  }

  /** What a successful read stores for an entry. */
  function Stored(file: seq<byte>, h: EntryHeader): Weights
    requires h.shapeEnd + 1 + h.numBytes <= |file|
  {
    Weights(h.dataType, EntryData(file, h), h.count)
  }

  // ---------------------------------------------------------------------
  // Properties of the reader
  // ---------------------------------------------------------------------

  /** Names already taken are never pending. */
  ghost predicate Disjoint(st: LoadState)
  {
    st.weights.Keys !! st.pending
  }

  /** The empty shape `()` has one element: its byte size is the element
      size. */
  lemma EmptyShapeIsScalar()
    ensures ParseShape([]) == Ok([]) && Product([]) == 1
  {
  }

  /** The digits of a one-field shape parse to their decimal value. */
  lemma {:induction false} DigitsParse(digits: seq<byte>)
    requires |digits| > 0 && forall i :: 0 <= i < |digits| ==> IsDigit(digits[i])
    requires DecimalValue(digits) < ULongLimit
    ensures ParseDimension(digits) == Ok(DecimalValue(digits))
  {
    assert digits[0..|digits|] == digits;
    NumeralAt(digits, 0, 0, digits);
  }

  /** A run of digits after white space is read as its decimal value. */
  lemma {:induction false} NumeralAt(s: seq<byte>, from: nat, at: nat, digits: seq<byte>)
    requires from <= at && at + |digits| <= |s| && s[at..at + |digits|] == digits
    requires |digits| > 0 && forall i :: 0 <= i < |digits| ==> IsDigit(digits[i])
    requires forall i :: from <= i < at ==> IsSpace(s[i])
    requires at + |digits| == |s| || !IsDigit(s[at + |digits|])
    ensures ReadNumeral(s, from) == Some(Lexeme(Numeral(false, DecimalValue(digits)), at + |digits|))
  {
    assert s[at] == digits[0];
    assert SkipSpaces(s, from) == at;
    assert forall i :: at <= i < at + |digits| ==> s[i] == digits[i - at];
    assert DigitsEnd(s, at) == at + |digits|;
  }

  /** A token followed by white space is read whole. */
  lemma {:induction false} TokenAt(s: seq<byte>, at: nat, token: seq<byte>)
    requires at + |token| < |s| && s[at..at + |token|] == token && IsSpace(s[at + |token|])
    requires |token| > 0 && forall i :: 0 <= i < |token| ==> !IsSpace(token[i])
    ensures ReadToken(s, at) == Some(Lexeme(token, at + |token|))
  {
    assert s[at] == token[0];
    assert SkipSpaces(s, at) == at;
    assert forall i :: at <= i < at + |token| ==> s[i] == token[i - at];
    assert TokenEnd(s, at) == at + |token|;
  }

  /** `FindByte` finds the first occurrence. */
  lemma {:induction false} FoundAt(s: seq<byte>, from: nat, at: nat, b: byte)
    requires from <= at < |s| && s[at] == b
    requires forall i :: from <= i < at ==> s[i] != b
    ensures FindByte(s, from, b) == Some(at)
  {
  }

  /** `n` written in decimal without leading zeros. */
  function DecimalDigits(n: nat): (ds: seq<byte>)
    ensures |ds| > 0 && forall i :: 0 <= i < |ds| ==> IsDigit(ds[i])
    ensures DecimalValue(ds) == n
    decreases n
  {
    var last := (Zero as int + n % 10) as byte;
    if n < 10 then
      assert [last][..0] == [];
      [last]
    else
      var ds := DecimalDigits(n / 10) + [last];
      assert ds[..|ds| - 1] == DecimalDigits(n / 10);
      ds
  }

  /** Fields joined with commas: the inverse of `SplitFields`. */
  function Join(fields: seq<seq<byte>>): seq<byte>
  {
    if |fields| == 0 then []
    else if |fields| == 1 then fields[0]
    else fields[0] + [Comma] + Join(fields[1..])
  }

  /** Joining the fields gives back the shape text, less a final comma. */
  lemma {:induction false} JoinSplitFields(s: seq<byte>)
    ensures s == [] || s[|s| - 1] != Comma ==> Join(SplitFields(s)) == s
    ensures s != [] && s[|s| - 1] == Comma ==> Join(SplitFields(s)) + [Comma] == s
    decreases |s|
  {
    if s != [] {
      match FindByte(s, 0, Comma)
      case None =>
      case Some(i) =>
        var tail := s[i + 1..];
        assert s == s[..i] + [Comma] + tail;
        JoinSplitFields(tail);
        var rest := SplitFields(tail);
        assert SplitFields(s) == [s[..i]] + rest;
        if tail != [] {
          assert tail[|tail| - 1] == s[|s| - 1];
          assert ([s[..i]] + rest)[1..] == rest;
        }
    }
  }

  /** Splitting joined fields gives the fields back, when none holds a
      comma and the last is not empty. */
  lemma {:induction false} SplitJoin(fields: seq<seq<byte>>)
    requires forall i :: 0 <= i < |fields| ==> Comma !in fields[i]
    requires fields == [] || fields[|fields| - 1] != []
    ensures SplitFields(Join(fields)) == fields
    decreases |fields|
  {
    if |fields| == 1 {
      assert FindByte(fields[0], 0, Comma) == None;
    } else if |fields| > 1 {
      var f := fields[0];
      var tail := Join(fields[1..]);
      var s := f + [Comma] + tail;
      assert forall i :: 0 <= i < |f| ==> s[i] == f[i];
      FoundAt(s, 0, |f|, Comma);
      assert s[..|f|] == f && s[|f| + 1..] == tail;
      SplitJoin(fields[1..]);
      assert fields == [f] + fields[1..];
    }
  }

  /** The bytes of a shape written out in decimal: `d1,d2,...`. */
  function EncodeShape(dims: seq<nat>): seq<byte>
  {
    Join(DecimalFields(dims))
  }

  function DecimalFields(dims: seq<nat>): (fields: seq<seq<byte>>)
    ensures |fields| == |dims|
    ensures forall i :: 0 <= i < |dims| ==> fields[i] == DecimalDigits(dims[i])
  {
    seq(|dims|, i requires 0 <= i < |dims| => DecimalDigits(dims[i]))
  }

  /** A header as the dump script writes it: name, type, shape. */
  function EncodeHeader(name: Name, dataType: nat, dims: seq<nat>): seq<byte>
  {
    HeaderText(name, DecimalDigits(dataType), EncodeShape(dims))
  }

  /** The layout of a header around its already written parts. */
  function HeaderText(name: Name, digits: seq<byte>, shape: seq<byte>): seq<byte>
  {
    name + [Space] + digits + [Space, OpenParen] + shape + [CloseParen]
  }

  /** The joined decimal fields hold only digits and commas. */
  lemma {:induction false} JoinedDigits(fields: seq<seq<byte>>)
    requires forall i, j :: 0 <= i < |fields| && 0 <= j < |fields[i]| ==> IsDigit(fields[i][j])
    ensures forall j :: 0 <= j < |Join(fields)| ==> IsDigit(Join(fields)[j]) || Join(fields)[j] == Comma
    decreases |fields|
  {
    if |fields| > 1 {
      JoinedDigits(fields[1..]);
      var f := fields[0];
      assert forall j :: 0 <= j < |f| ==> IsDigit(f[j]);
    } else if |fields| == 1 {
      assert forall j :: 0 <= j < |fields[0]| ==> IsDigit(fields[0][j]);
    }
  }

  /** Each decimal field parses back to its dimension. */
  lemma {:induction false} DimensionsParse(dims: seq<nat>)
    requires forall i :: 0 <= i < |dims| ==> dims[i] < ULongLimit
    ensures ParseDimensions(DecimalFields(dims)) == Ok(dims)
    decreases |dims|
  {
    if dims != [] {
      DigitsParse(DecimalDigits(dims[0]));
      assert DecimalFields(dims)[1..] == DecimalFields(dims[1..]);
      DimensionsParse(dims[1..]);
      assert dims == [dims[0]] + dims[1..];
    }
  }

  /** The parts of an encoded header: a decimal data type id, and a shape
      text with no closing parenthesis that parses back to the dimensions. */
  lemma EncodedHeaderParts(name: Name, dataType: nat, dims: seq<nat>)
    requires forall i :: 0 <= i < |dims| ==> dims[i] < ULongLimit
    ensures EncodeHeader(name, dataType, dims) == HeaderText(name, DecimalDigits(dataType), EncodeShape(dims))
    ensures CloseParen !in EncodeShape(dims) && ParseShape(EncodeShape(dims)) == Ok(dims)
  {
    JoinedDigits(DecimalFields(dims));
    ShapeRoundTrip(dims);
  }

  /** A shape written out in decimal parses back to its dimensions. */
  lemma ShapeRoundTrip(dims: seq<nat>)
    requires forall i :: 0 <= i < |dims| ==> dims[i] < ULongLimit
    ensures ParseShape(EncodeShape(dims)) == Ok(dims)
  {
    var fields := DecimalFields(dims);
    forall i | 0 <= i < |fields|
      ensures Comma !in fields[i]
    {
      assert forall j :: 0 <= j < |fields[i]| ==> IsDigit(fields[i][j]);
    }
    SplitJoin(fields);
    DimensionsParse(dims);
  }

  /** The header parser reads back a header as it is written: name, type and
      dimensions, the element count their product and the byte count the
      element size times that. The entry may sit anywhere in the file and
      anything may follow it. */
  lemma {:induction false} HeaderRoundTrip(pre: seq<byte>, name: Name, dataType: nat, dims: seq<nat>, rest: seq<byte>)
    requires |name| > 0 && forall i :: 0 <= i < |name| ==> !IsSpace(name[i])
    requires ElementSize(dataType).Some?
    requires forall i :: 0 <= i < |dims| ==> dims[i] < ULongLimit
    ensures var header := EncodeHeader(name, dataType, dims);
      ParseEntryHeader(pre + header + rest, |pre|)
      == Ok(EntryHeader(name, dataType, dims, Product(dims), ByteCount(ElementSize(dataType).value, Product(dims)),
                        |pre| + |header|))
  {
    var digits := DecimalDigits(dataType);
    var shape := EncodeShape(dims);
    EncodedHeaderParts(name, dataType, dims);
    HeaderTextRoundTrip(pre, EncodeHeader(name, dataType, dims), name, digits, shape, dataType, dims, rest);
  }

  /** The header parser reads back a header laid out around its parts. */
  lemma {:induction false} HeaderTextRoundTrip(pre: seq<byte>, header: seq<byte>, name: Name, digits: seq<byte>,
                                               shape: seq<byte>, dataType: nat, dims: seq<nat>, rest: seq<byte>)
    requires header == HeaderText(name, digits, shape)
    requires |name| > 0 && forall i :: 0 <= i < |name| ==> !IsSpace(name[i])
    requires |digits| > 0 && forall i :: 0 <= i < |digits| ==> IsDigit(digits[i])
    requires DecimalValue(digits) == dataType && ElementSize(dataType).Some?
    requires CloseParen !in shape
    requires ParseShape(shape) == Ok(dims)
    ensures ParseEntryHeader(pre + header + rest, |pre|)
      == Ok(EntryHeader(name, dataType, dims, Product(dims), ByteCount(ElementSize(dataType).value, Product(dims)),
                        |pre| + |header|))
  {
    var p1 := |pre| + |name|;
    var p2 := p1 + 1 + |digits|;
    assert UnsignedValue(Numeral(false, DecimalValue(digits)), UInt32Limit) == Some(dataType);
    HeaderLexed(pre, name, digits, shape, rest);
    HeaderFromParts(pre + HeaderText(name, digits, shape) + rest, |pre|, name, p1,
                    Numeral(false, DecimalValue(digits)), p2, dataType, shape, dims,
                    |pre| + |HeaderText(name, digits, shape)|);
  }

  /** Each lexer of the header parser reads its part of a header. */
  lemma {:induction false} HeaderLexed(pre: seq<byte>, name: Name, digits: seq<byte>, shape: seq<byte>,
                                       rest: seq<byte>)
    requires |name| > 0 && forall i :: 0 <= i < |name| ==> !IsSpace(name[i])
    requires |digits| > 0 && forall i :: 0 <= i < |digits| ==> IsDigit(digits[i])
    requires CloseParen !in shape
    ensures var file := pre + HeaderText(name, digits, shape) + rest;
      var p1 := |pre| + |name|;
      var p2 := p1 + 1 + |digits|;
      && ReadToken(file, |pre|) == Some(Lexeme(name, p1))
      && ReadNumeral(file, p1) == Some(Lexeme(Numeral(false, DecimalValue(digits)), p2))
      && ReadShapeText(file, p2) == Some(Lexeme(shape, |pre| + |HeaderText(name, digits, shape)|))
  {
    TokenIn(pre, name, digits, shape, rest);
    NumeralIn(pre, name, digits, shape, rest);
    ShapeIn(pre, name, digits, shape, rest);
  }

  /** The token reader takes the name at the start of a header. */
  lemma {:induction false} TokenIn(pre: seq<byte>, name: Name, digits: seq<byte>, shape: seq<byte>, rest: seq<byte>)
    requires |name| > 0 && forall i :: 0 <= i < |name| ==> !IsSpace(name[i])
    ensures ReadToken(pre + HeaderText(name, digits, shape) + rest, |pre|) == Some(Lexeme(name, |pre| + |name|))
  {
    var afterName := [Space] + (digits + ([Space, OpenParen] + (shape + ([CloseParen] + rest))));
    assert pre + HeaderText(name, digits, shape) + rest == pre + (name + afterName);
    TokenFront(pre, name, afterName);
  }

  /** The numeral reader takes the data type of a header. */
  lemma {:induction false} NumeralIn(pre: seq<byte>, name: Name, digits: seq<byte>, shape: seq<byte>, rest: seq<byte>)
    requires |digits| > 0 && forall i :: 0 <= i < |digits| ==> IsDigit(digits[i])
    ensures var p1 := |pre| + |name|;
      ReadNumeral(pre + HeaderText(name, digits, shape) + rest, p1)
      == Some(Lexeme(Numeral(false, DecimalValue(digits)), p1 + 1 + |digits|))
  {
    var afterType := [Space, OpenParen] + (shape + ([CloseParen] + rest));
    NumeralCut(pre, name, digits, shape, rest);
    NumeralAfterName(pre, name, digits, afterType);
  }

  lemma {:induction false} NumeralCut(pre: seq<byte>, name: Name, digits: seq<byte>, shape: seq<byte>, rest: seq<byte>)
    ensures var p1 := |pre| + |name|;
      ReadNumeral(pre + HeaderText(name, digits, shape) + rest, p1)
      == ReadNumeral((pre + name) + ([Space] + (digits + ([Space, OpenParen] + (shape + ([CloseParen] + rest))))), p1)
  {
    var afterName := [Space] + (digits + ([Space, OpenParen] + (shape + ([CloseParen] + rest))));
    assert pre + HeaderText(name, digits, shape) + rest == (pre + name) + afterName;
  }

  /** The shape reader takes the shape of a header. */
  lemma {:induction false} ShapeIn(pre: seq<byte>, name: Name, digits: seq<byte>, shape: seq<byte>, rest: seq<byte>)
    requires CloseParen !in shape
    ensures ReadShapeText(pre + HeaderText(name, digits, shape) + rest, |pre| + |name| + 1 + |digits|)
            == Some(Lexeme(shape, |pre| + |HeaderText(name, digits, shape)|))
  {
    ShapePlaced(pre, name, digits, shape, rest);
    ShapeAt(pre + HeaderText(name, digits, shape) + rest, |pre| + |name| + 1 + |digits|, shape,
            |pre| + |HeaderText(name, digits, shape)|);
  }

  /** Where the shape of a header sits in the file. */
  lemma {:induction false} ShapePlaced(pre: seq<byte>, name: Name, digits: seq<byte>, shape: seq<byte>, rest: seq<byte>)
    ensures var s := pre + HeaderText(name, digits, shape) + rest;
      var p2 := |pre| + |name| + 1 + |digits|;
      && |HeaderText(name, digits, shape)| == |name| + |digits| + |shape| + 4
      && p2 + |shape| + 3 <= |s| && s[p2] == Space && s[p2 + 1] == OpenParen
      && s[p2 + 2..p2 + 2 + |shape|] == shape && s[p2 + 2 + |shape|] == CloseParen
  {
    var front := pre + name + [Space] + digits;
    var s := pre + HeaderText(name, digits, shape) + rest;
    var inner := shape + ([CloseParen] + rest);
    assert s == front + ([Space, OpenParen] + inner);
    assert s[|front| + 2..|front| + 2 + |shape|] == shape;
  }

  /** The token reader takes a name that a space follows. */
  lemma {:induction false} TokenFront(pre: seq<byte>, name: Name, tail: seq<byte>)
    requires |name| > 0 && forall i :: 0 <= i < |name| ==> !IsSpace(name[i])
    requires |tail| > 0 && IsSpace(tail[0])
    ensures ReadToken(pre + (name + tail), |pre|) == Some(Lexeme(name, |pre| + |name|))
  {
    var s := pre + (name + tail);
    assert s[|pre|..|pre| + |name|] == name;
    TokenAt(s, |pre|, name);
  }

  /** The numeral reader takes the data type digits after the name. */
  lemma {:induction false} NumeralAfterName(pre: seq<byte>, name: Name, digits: seq<byte>, tail: seq<byte>)
    requires |digits| > 0 && forall i :: 0 <= i < |digits| ==> IsDigit(digits[i])
    requires |tail| > 0 && !IsDigit(tail[0])
    ensures ReadNumeral((pre + name) + ([Space] + (digits + tail)), |pre| + |name|)
            == Some(Lexeme(Numeral(false, DecimalValue(digits)), |pre| + |name| + 1 + |digits|))
  {
    var front := pre + name;
    var s := front + ([Space] + (digits + tail));
    assert |front| == |pre| + |name|;
    assert s[|pre| + |name| + 1..|pre| + |name| + 1 + |digits|] == digits;
    NumeralAt(s, |pre| + |name|, |pre| + |name| + 1, digits);
  }

  /** The shape reader finds a shape in parentheses written after a space. */
  lemma {:induction false} ShapeAt(s: seq<byte>, from: nat, shape: seq<byte>, end: nat)
    requires CloseParen !in shape
    requires end == from + |shape| + 3 <= |s| && s[from] == Space && s[from + 1] == OpenParen
    requires s[from + 2..from + 2 + |shape|] == shape && s[from + 2 + |shape|] == CloseParen
    ensures ReadShapeText(s, from) == Some(Lexeme(shape, end))
  {
    FoundAt(s, from, from + 1, OpenParen);
    assert forall i :: from + 2 <= i < from + 2 + |shape| ==> s[i] == shape[i - (from + 2)];
    FoundAt(s, from + 2, from + 2 + |shape|, CloseParen);
  }

  /** The header parser composes its lexers. */
  lemma {:induction false} HeaderFromParts(file: seq<byte>, pos: nat, name: Name, nameEnd: nat,
                                           typeText: Numeral, typeEnd: nat, dataType: nat,
                                           shape: seq<byte>, dims: seq<nat>, shapeEnd: nat)
    requires ReadToken(file, pos) == Some(Lexeme(name, nameEnd))
    requires ReadNumeral(file, nameEnd) == Some(Lexeme(typeText, typeEnd))
    requires UnsignedValue(typeText, UInt32Limit) == Some(dataType)
    requires ReadShapeText(file, typeEnd) == Some(Lexeme(shape, shapeEnd))
    requires ParseShape(shape) == Ok(dims)
    requires ElementSize(dataType).Some?
    ensures ParseEntryHeader(file, pos)
      == Ok(EntryHeader(name, dataType, dims, Product(dims), ByteCount(ElementSize(dataType).value, Product(dims)), shapeEnd))
  {
  }

  /** Signs as `>>` and `std::stoul` read them: `+2` counts two entries,
      and the shape `(-1)` has the dimension 2^64 - 1. */
  lemma SignedNumerals()
    ensures ReadCount([Plus, Zero + 2]) == Ok(Lexeme(2, 2))
    ensures ReadCount([Minus, Zero + 2]) == Ok(Lexeme(-2, 2))
    ensures ParseShape([Minus, Zero + 1]) == Ok([ULongLimit - 1])
  {
    var plus2: seq<byte> := [Plus, Zero + 2];
    assert plus2[1..2] == [Zero + 2];
    NumeralAt(plus2, 1, 1, [Zero + 2]);
    var minus2: seq<byte> := [Minus, Zero + 2];
    assert minus2[1..2] == [Zero + 2];
    var minus1: seq<byte> := [Minus, Zero + 1];
    assert minus1[1..2] == [Zero + 1];
    assert SplitFields(minus1) == [minus1];
    SingleField(minus1);
  }

  /** A trailing comma adds no field. */
  lemma TrailingCommaSplit(field: seq<byte>)
    requires field != [] && Comma !in field
    ensures SplitFields(field + [Comma]) == [field]
  {
    var s := field + [Comma];
    assert forall j :: 0 <= j < |field| ==> s[j] == field[j] && s[j] != Comma;
    assert s[|field|] == Comma;
    assert FindByte(s, 0, Comma) == Some(|field|);
    assert s[..|field|] == field;
    assert s[|field| + 1..] == [];
  }

  /** A shape written with a trailing comma, as a one-dimensional tuple is
      printed, has exactly the dimension before the comma. */
  lemma TrailingCommaShape(digits: seq<byte>)
    requires |digits| > 0 && forall i :: 0 <= i < |digits| ==> IsDigit(digits[i])
    requires DecimalValue(digits) < ULongLimit
    ensures ParseShape(digits + [Comma]) == Ok([DecimalValue(digits)])
  {
    assert Comma !in digits by {
      forall i | 0 <= i < |digits| ensures digits[i] != Comma { }
    }
    TrailingCommaSplit(digits);
    DigitsParse(digits);
    SingleField(digits);
  }

  lemma SingleField(field: seq<byte>)
    ensures ParseDimensions([field]) ==
      match ParseDimension(field) case Err(e) => Err(e) case Ok(d) => Ok([d])
  {
    assert [field][1..] == [];
    assert ParseDimensions([]) == Ok([]);
    match ParseDimension(field) {
      case Err(e) =>
      case Ok(d) => assert [d] + [] == [d];
    }
  }

  /** Skipping an entry and reading it leave the cursor at the same place:
      the step's new position does not depend on which names are pending. */
  lemma SkipAndReadAdvanceAlike(file: seq<byte>, parse: HeaderParser, st1: LoadState, st2: LoadState)
    requires st1.pos == st2.pos
    requires Step(file, parse, st1).Ok? && Step(file, parse, st2).Ok?
    ensures Step(file, parse, st1).value.pos == Step(file, parse, st2).value.pos
  {
  }

  /** A step that finds a pending name stores exactly the entry's
      `numBytes` data bytes under it and erases it from the pending set;
      the other names are untouched. */
  lemma StepTakes(file: seq<byte>, parse: HeaderParser, st: LoadState)
    requires Step(file, parse, st).Ok?
    ensures var h := parse(st.pos).value;
      var next := Step(file, parse, st).value;
      if h.name in st.pending then
        h.shapeEnd + 1 + h.numBytes <= |file|
        && next.pending == st.pending - {h.name}
        && next.weights == st.weights[h.name := Stored(file, h)]
        && |next.weights[h.name].values| == h.numBytes
      else next.pending == st.pending && next.weights == st.weights
  {
  }

  /** One step over an entry that is not requested: only the position moves. */
  lemma StepSkips(file: seq<byte>, parse: HeaderParser, st: LoadState)
    requires parse(st.pos).Ok? && parse(st.pos).value.name !in st.pending
    ensures var h := parse(st.pos).value;
      Step(file, parse, st) == Ok(LoadState(h.shapeEnd + (2 + h.numBytes), st.pending, st.weights))
  {
  }

  /** One step over a requested entry whose data is all there. */
  lemma StepStores(file: seq<byte>, parse: HeaderParser, st: LoadState)
    requires parse(st.pos).Ok? && parse(st.pos).value.name in st.pending
    requires parse(st.pos).value.shapeEnd + 1 + parse(st.pos).value.numBytes <= |file|
    ensures var h := parse(st.pos).value;
      Step(file, parse, st)
      == Ok(LoadState(h.shapeEnd + 1 + h.numBytes + 1, st.pending - {h.name}, st.weights[h.name := Stored(file, h)]))
  {
  }

  /** `Loop` takes one step while entries remain and names are pending. */
  lemma LoopUnfolds(file: seq<byte>, parse: HeaderParser, st: LoadState, remaining: nat)
    requires remaining > 0 && st.pending != {}
    ensures Loop(file, parse, st, remaining)
         == match Step(file, parse, st)
            case Err(e) => Err(e)
            case Ok(next) => Loop(file, parse, next, remaining - 1)
  {
  }

  /** Every name ends up either taken or still pending, never both, and a
      taken value is never replaced. */
  lemma {:induction false} LoopPartitionsNames(file: seq<byte>, parse: HeaderParser, st: LoadState, remaining: nat)
    requires Disjoint(st)
    requires Loop(file, parse, st, remaining).Ok?
    ensures var fin := Loop(file, parse, st, remaining).value;
      && Disjoint(fin)
      && fin.weights.Keys + fin.pending == st.weights.Keys + st.pending
      && fin.pending <= st.pending
      && (forall x :: x in st.weights ==> x in fin.weights && fin.weights[x] == st.weights[x])
    decreases remaining
  {
    if remaining == 0 || st.pending == {} {
    } else {
      var next := Step(file, parse, st).value;
      StepTakes(file, parse, st);
      LoopPartitionsNames(file, parse, next, remaining - 1);
    }
  }

  /** The loop parses at most `remaining` entries. */
  lemma {:induction false} LoopVisitsAtMostCount(file: seq<byte>, parse: HeaderParser, st: LoadState, remaining: nat)
    ensures |Trace(file, parse, st, remaining)| <= remaining
    decreases remaining
  {
    if remaining == 0 || st.pending == {} {
    } else if Step(file, parse, st).Ok? {
      LoopVisitsAtMostCount(file, parse, Step(file, parse, st).value, remaining - 1);
    }
  }

  /** And it takes at most `remaining` names. */
  lemma {:induction false} LoopTakesAtMostCount(file: seq<byte>, parse: HeaderParser, st: LoadState, remaining: nat)
    requires Loop(file, parse, st, remaining).Ok?
    ensures |Loop(file, parse, st, remaining).value.weights.Keys - st.weights.Keys| <= remaining
    decreases remaining
  {
    if remaining == 0 || st.pending == {} {
    } else {
      var next := Step(file, parse, st).value;
      StepTakes(file, parse, st);
      LoopTakesAtMostCount(file, parse, next, remaining - 1);
      var fin := Loop(file, parse, st, remaining).value;
      assert fin == Loop(file, parse, next, remaining - 1).value;
      var h := parse(st.pos).value;
      assert fin.weights.Keys - st.weights.Keys <= (fin.weights.Keys - next.weights.Keys) + {h.name};
      SubsetCard(fin.weights.Keys - st.weights.Keys, (fin.weights.Keys - next.weights.Keys) + {h.name});
    }
  }

  lemma SubsetCard<T>(a: set<T>, b: set<T>)
    requires a <= b
    ensures |a| <= |b|
  {
    if a != {} {
      var x :| x in a;
      SubsetCard(a - {x}, b - {x});
    }
  }

  /** Once the last pending name is taken the loop stops: the rest of the
      file is not parsed, whatever it holds. */
  lemma StopsWhenAllFound(file: seq<byte>, parse: HeaderParser, st: LoadState, remaining: nat)
    requires remaining > 0 && st.pending != {}
    requires Step(file, parse, st).Ok? && Step(file, parse, st).value.pending == {}
    ensures Loop(file, parse, st, remaining) == Step(file, parse, st)
    ensures Trace(file, parse, st, remaining) == [parse(st.pos).value]
  {
  }

  /** First occurrence wins: a pending name is stored with the data of the
      first entry of that name the loop parses. */
  lemma {:induction false} FirstOccurrenceWins(file: seq<byte>, parse: HeaderParser, st: LoadState, remaining: nat, x: Name, i: nat)
    requires Disjoint(st)
    requires Loop(file, parse, st, remaining).Ok?
    requires x in st.pending
    requires i < |Trace(file, parse, st, remaining)| && Trace(file, parse, st, remaining)[i].name == x
    requires forall j :: 0 <= j < i ==> Trace(file, parse, st, remaining)[j].name != x
    ensures var h := Trace(file, parse, st, remaining)[i];
      h.shapeEnd + 1 + h.numBytes <= |file|
      && x in Loop(file, parse, st, remaining).value.weights
      && Loop(file, parse, st, remaining).value.weights[x] == Stored(file, h)
    decreases remaining
  {
    var next := Step(file, parse, st).value;
    var h := parse(st.pos).value;
    StepTakes(file, parse, st);
    assert Trace(file, parse, st, remaining) == [h] + Trace(file, parse, next, remaining - 1);
    assert Loop(file, parse, st, remaining) == Loop(file, parse, next, remaining - 1);
    if i == 0 {
      assert x in next.weights && next.weights[x] == Stored(file, h);
      LoopPartitionsNames(file, parse, next, remaining - 1);
    } else {
      assert Trace(file, parse, st, remaining)[0] == h;
      assert x in next.pending;
      var rest := Trace(file, parse, next, remaining - 1);
      forall j | 0 <= j < i - 1
        ensures rest[j].name != x
      {
        assert rest[j] == Trace(file, parse, st, remaining)[j + 1];
      }
      FirstOccurrenceWins(file, parse, next, remaining - 1, x, i - 1);
    }
  }

  /** A pending name that no parsed entry carries stays pending and is not
      in the map. */
  lemma {:induction false} UnseenNameStaysPending(file: seq<byte>, parse: HeaderParser, st: LoadState, remaining: nat, x: Name)
    requires Disjoint(st)
    requires Loop(file, parse, st, remaining).Ok?
    requires x in st.pending
    requires forall j :: 0 <= j < |Trace(file, parse, st, remaining)| ==> Trace(file, parse, st, remaining)[j].name != x
    ensures x in Loop(file, parse, st, remaining).value.pending
    ensures x !in Loop(file, parse, st, remaining).value.weights
    decreases remaining
  {
    if remaining == 0 || st.pending == {} {
    } else {
      var next := Step(file, parse, st).value;
      var h := parse(st.pos).value;
      StepTakes(file, parse, st);
      assert Trace(file, parse, st, remaining) == [h] + Trace(file, parse, next, remaining - 1);
      assert Trace(file, parse, st, remaining)[0] == h;
      var rest := Trace(file, parse, next, remaining - 1);
      forall j | 0 <= j < |rest|
        ensures rest[j].name != x
      {
        assert rest[j] == Trace(file, parse, st, remaining)[j + 1];
      }
      UnseenNameStaysPending(file, parse, next, remaining - 1, x);
    }
  }

  /** The reader's result: every key is a requested name, every requested
      name is either in the map or left pending, and at most `count` names
      are taken. */
  lemma LoadWeightsKeys(file: seq<byte>, requested: set<Name>)
    requires LoadWeightsSpec(file, requested).Ok?
    ensures var fin := LoadWeightsSpec(file, requested).value;
      && fin.weights.Keys <= requested
      && fin.weights.Keys !! fin.pending
      && fin.weights.Keys + fin.pending == requested
      && |fin.weights.Keys| <= ReadCount(file).value.value
  {
    var c := ReadCount(file).value;
    var st := LoadState(c.end, requested, map[]);
    LoopPartitionsNames(file, HeadersOf(file), st, c.value);
    LoopTakesAtMostCount(file, HeadersOf(file), st, c.value);
    assert st.weights.Keys == {};
  }
}
