/** The JSON writer and parser (demo-evm/src/json.rs).  Strings are UTF-8 byte strings; floats stay
    the text that was read.  Both are given here as functions, the parser's of the position, and
    parsing is proved to undo writing; module JsonParser has the writer and the parser object. */
module Json {
  import opened Bytes

  datatype Value =
    | Null
    | Bool(b: bool)
    | Int(i: int)
    | Float(text: bytes)
    | Str(s: bytes)
    | Array(items: seq<Value>)
    | Object(pairs: seq<(bytes, Value)>)

  const MAX_DEPTH: nat := 64

  /** 128-bit signed integers. */
  const I128: int := 0x8000_0000_0000_0000_0000_0000_0000_0000

  // ---------------------------------------------------------------- writing

  const QUOTE: byte := 34
  const BACKSLASH: byte := 92
  const COMMA: byte := 44
  const COLON: byte := 58
  const MINUS: byte := 45
  const DOT: byte := 46
  const OPEN_BRACKET: byte := 91
  const CLOSE_BRACKET: byte := 93
  const OPEN_BRACE: byte := 123
  const CLOSE_BRACE: byte := 125

  predicate IsDigit(c: byte) { 48 <= c <= 57 }

  function HexDigit(d: nat): byte
    requires d < 16
  {
    if d < 10 then 48 + d else 87 + d
  }

  /** One byte of a string literal; bytes of multi-byte characters pass through. */
  function Escaped(c: byte): (r: bytes)
    ensures r != []
  {
    if c == QUOTE then [BACKSLASH, QUOTE]
    else if c == BACKSLASH then [BACKSLASH, BACKSLASH]
    else if c == 10 then [BACKSLASH, 110]
    else if c == 13 then [BACKSLASH, 114]
    else if c == 9 then [BACKSLASH, 116]
    else if c < 32 then [BACKSLASH, 117, 48, 48, HexDigit(c / 16), HexDigit(c % 16)]
    else [c]
  }

  function WriteChars(s: bytes): bytes {
    if s == [] then [] else Escaped(s[0]) + WriteChars(s[1..])
  }

  function WriteStr(s: bytes): bytes {
    [QUOTE] + (WriteChars(s) + [QUOTE])
  }

  /** Decimal digits, most significant first. */
  function Digits(n: nat): (r: bytes)
    ensures r != [] && forall k :: 0 <= k < |r| ==> IsDigit(r[k])
  {
    if n < 10 then [48 + n] else Digits(n / 10) + [48 + n % 10]
  }

  function WriteInt(i: int): bytes {
    if i < 0 then [MINUS] + Digits(-i) else Digits(i)
  }

  function Write(v: Value): bytes
    decreases v, 1
  {
    match v
    case Null => Ascii("null")
    case Bool(b) => if b then Ascii("true") else Ascii("false")
    case Int(i) => WriteInt(i)
    case Float(text) => text
    case Str(s) => WriteStr(s)
    case Array(items) => [OPEN_BRACKET] + (WriteItems(items) + [CLOSE_BRACKET])
    case Object(pairs) => [OPEN_BRACE] + (WritePairs(pairs) + [CLOSE_BRACE])
  }

  function WriteItems(items: seq<Value>): bytes
    decreases items, 0
  {
    if items == [] then []
    else if |items| == 1 then Write(items[0])
    else Write(items[0]) + ([COMMA] + WriteItems(items[1..]))
  }

  function WritePair(p: (bytes, Value)): bytes
    decreases p, 2
  {
    WriteStr(p.0) + ([COLON] + Write(p.1))
  }

  function WritePairs(pairs: seq<(bytes, Value)>): bytes
    decreases pairs, 0
  {
    if pairs == [] then []
    else if |pairs| == 1 then WritePair(pairs[0])
    else WritePair(pairs[0]) + ([COMMA] + WritePairs(pairs[1..]))
  }

  // ---------------------------------------------------------------- UTF-8

  predicate IsContinuation(c: byte) { 128 <= c <= 191 }

  /** Length of a character from its first byte. */
  function Utf8Len(first: byte): (r: nat)
    ensures 2 <= r <= 4
  {
    if 0xc0 <= first <= 0xdf then 2 else if 0xe0 <= first <= 0xef then 3 else 4
  }

  /** A multi-byte character (section 4 of RFC 3629). */
  predicate IsWideChar(c: bytes) {
    (|c| == 2 && 0xc2 <= c[0] <= 0xdf && IsContinuation(c[1]))
    || (|c| == 3 && IsContinuation(c[2]) && (
         (c[0] == 0xe0 && 0xa0 <= c[1] <= 0xbf) || (0xe1 <= c[0] <= 0xec && IsContinuation(c[1]))
         || (c[0] == 0xed && 0x80 <= c[1] <= 0x9f) || (0xee <= c[0] <= 0xef && IsContinuation(c[1]))))
    || (|c| == 4 && IsContinuation(c[2]) && IsContinuation(c[3]) && (
         (c[0] == 0xf0 && 0x90 <= c[1] <= 0xbf) || (0xf1 <= c[0] <= 0xf3 && IsContinuation(c[1]))
         || (c[0] == 0xf4 && 0x80 <= c[1] <= 0x8f)))
  }

  predicate IsUtf8(s: bytes) {
    if s == [] then true
    else if s[0] < 128 then IsUtf8(s[1..])
    else |s| >= Utf8Len(s[0]) && IsWideChar(s[..Utf8Len(s[0])]) && IsUtf8(s[Utf8Len(s[0])..])
  }

  /** The bytes of a code point. */
  function EncodeChar(cp: nat): bytes
    requires cp < 0x110000
  {
    if cp < 0x80 then [cp]
    else if cp < 0x800 then [0xc0 + cp / 64, 0x80 + cp % 64]
    else if cp < 0x10000 then [0xe0 + cp / 4096, 0x80 + cp / 64 % 64, 0x80 + cp % 64]
    else [0xf0 + cp / 262144, 0x80 + cp / 4096 % 64, 0x80 + cp / 64 % 64, 0x80 + cp % 64]
  }

  // ---------------------------------------------------------------- parsing

  datatype Error =
    | Unexpected(at: nat)
    | BadEscape(at: nat)
    | BadUnicodeEscape(at: nat)
    | UnpairedSurrogate(at: nat)
    | BadNumber(at: nat)
    | BadLiteral(at: nat)
    | DepthLimit(at: nat)
    | Truncated
    | Trailing(at: nat)

  /** A value and the position after it, or an error. */
  datatype Parsed<+T> = Good(value: T, pos: nat) | Bad(error: Error)

  predicate IsWs(c: byte) { c == 32 || c == 9 || c == 10 || c == 13 }

  function SkipWs(b: bytes, pos: nat): (r: nat)
    requires pos <= |b|
    ensures pos <= r <= |b| && (r < |b| ==> !IsWs(b[r]))
    decreases |b| - pos
  {
    if pos < |b| && IsWs(b[pos]) then SkipWs(b, pos + 1) else pos
  }

  function ParseLiteral(b: bytes, pos: nat, lit: bytes, value: Value): Parsed<Value> {
    if pos + |lit| <= |b| && b[pos..pos + |lit|] == lit then Good(value, pos + |lit|) else Bad(BadLiteral(pos))
  }

  function DigitsEnd(b: bytes, pos: nat): (r: nat)
    requires pos <= |b|
    ensures pos <= r <= |b| && (r < |b| ==> !IsDigit(b[r]))
    ensures pos < |b| && IsDigit(b[pos]) ==> pos < r
    decreases |b| - pos
  {
    if pos < |b| && IsDigit(b[pos]) then DigitsEnd(b, pos + 1) else pos
  }

  function DecimalOf(ds: bytes): int {
    if ds == [] then 0 else DecimalOf(ds[..|ds| - 1]) * 10 + (ds[|ds| - 1] as int - 48)
  }

  function IntOf(text: bytes): int {
    if text != [] && text[0] == MINUS then -DecimalOf(text[1..]) else DecimalOf(text)
  }

  predicate DigitAt(b: bytes, pos: nat) { pos < |b| && IsDigit(b[pos]) }

  /** The end of the integer part: no leading zeros. */
  function IntegerEnd(b: bytes, start: nat): (r: Parsed<()>)
    requires start < |b|
    ensures r.Good? ==> start < r.pos <= |b|
  {
    var p := if b[start] == MINUS then start + 1 else start;
    if p < |b| && b[p] == 48 then if DigitAt(b, p + 1) then Bad(BadNumber(start)) else Good((), p + 1)
    else if DigitAt(b, p) then Good((), DigitsEnd(b, p))
    else Bad(BadNumber(start))
  }

  /** The end of an optional fraction. */
  function FractionEnd(b: bytes, pos: nat, start: nat): (r: Parsed<()>)
    requires pos <= |b|
    ensures r.Good? ==> pos <= r.pos <= |b|
  {
    if pos < |b| && b[pos] == DOT then
      if DigitAt(b, pos + 1) then Good((), DigitsEnd(b, pos + 1)) else Bad(BadNumber(start))
    else Good((), pos)
  }

  /** The end of an optional exponent. */
  function ExponentEnd(b: bytes, pos: nat, start: nat): (r: Parsed<()>)
    requires pos <= |b|
    ensures r.Good? ==> pos <= r.pos <= |b|
  {
    if pos < |b| && (b[pos] == 101 || b[pos] == 69) then
      var p := if pos + 1 < |b| && (b[pos + 1] == 43 || b[pos + 1] == MINUS) then pos + 2 else pos + 1;
      if DigitAt(b, p) then Good((), DigitsEnd(b, p)) else Bad(BadNumber(start))
    else Good((), pos)
  }

  function ParseNumber(b: bytes, start: nat): (r: Parsed<Value>)
    requires start < |b|
    ensures r.Good? ==> start < r.pos <= |b| && Height(r.value) == 0
  {
    match IntegerEnd(b, start)
    case Bad(e) => Bad(e)
    case Good(_, p) =>
      match FractionEnd(b, p, start)
      case Bad(e) => Bad(e)
      case Good(_, q) =>
        match ExponentEnd(b, q, start)
        case Bad(e) => Bad(e)
        case Good(_, end) =>
          var text := b[start..end];
          if end > p then Good(Float(text), end)
          else if -I128 <= IntOf(text) < I128 then Good(Int(IntOf(text)), end)
          else Bad(BadNumber(start))
  }

  function HexValue(c: byte): (r: Option<nat>)
    ensures r.Some? ==> r.value < 16
  {
    if 48 <= c <= 57 then Some(c - 48)
    else if 97 <= c <= 102 then Some(c - 87)
    else if 65 <= c <= 70 then Some(c - 55)
    else None
  }

  /** The number written by n hexadecimal digits. */
  function HexFold(b: bytes, pos: nat, n: nat): (r: Option<nat>)
    requires pos + n <= |b|
  {
    if n == 0 then Some(0)
    else
      match HexFold(b, pos, n - 1)
      case None => None
      case Some(v) =>
        match HexValue(b[pos + n - 1])
        case None => None
        case Some(d) => Some(v * 16 + d)
  }

  lemma HexFoldSmall(b: bytes, pos: nat)
    requires pos + 4 <= |b|
    ensures var r := HexFold(b, pos, 4); r.Some? ==> r.value < 0x10000
    ensures var h0, h1, h2, h3 := HexValue(b[pos]), HexValue(b[pos + 1]), HexValue(b[pos + 2]), HexValue(b[pos + 3]);
      h0.Some? && h1.Some? && h2.Some? && h3.Some? ==>
        HexFold(b, pos, 4) == Some(((h0.value * 16 + h1.value) * 16 + h2.value) * 16 + h3.value)
  {
    HexStep(b, pos, 1);
    HexStep(b, pos, 2);
    HexStep(b, pos, 3);
    HexStep(b, pos, 4);
  }

  lemma HexStep(b: bytes, pos: nat, n: nat)
    requires 0 < n && pos + n <= |b|
    ensures var v, d := HexFold(b, pos, n - 1), HexValue(b[pos + n - 1]);
      HexFold(b, pos, n) == if v.None? || d.None? then None else Some(v.value * 16 + d.value)
    ensures n == 1 ==> HexFold(b, pos, 0) == Some(0)
  {
  }

  /** Four hexadecimal digits. */
  function Hex4(b: bytes, pos: nat, at: nat): (r: Parsed<nat>)
    ensures r.Good? ==> r.pos == pos + 4 <= |b| && r.value < 0x10000
  {
    if pos + 4 > |b| then Bad(Truncated)
    else
      HexFoldSmall(b, pos);
      match HexFold(b, pos, 4)
      case None => Bad(BadUnicodeEscape(at))
      case Some(v) => Good(v, pos + 4)
  }

  /** After `\\u`: a code unit, or a surrogate pair. */
  function UnicodeEscape(b: bytes, pos: nat, at: nat): (r: Parsed<bytes>)
    ensures r.Good? ==> pos < r.pos <= |b|
  {
    match Hex4(b, pos, at)
    case Bad(e) => Bad(e)
    case Good(hi, p) =>
      if 0xd800 <= hi < 0xdc00 then
        if p + 2 > |b| || b[p] != BACKSLASH || b[p + 1] != 117 then Bad(UnpairedSurrogate(at))
        else
          match Hex4(b, p + 2, at)
          case Bad(e) => Bad(e)
          case Good(lo, q) =>
            if 0xdc00 <= lo < 0xe000 then Good(EncodeChar(0x10000 + (hi - 0xd800) * 1024 + (lo - 0xdc00)), q)
            else Bad(UnpairedSurrogate(at))
      else if 0xdc00 <= hi < 0xe000 then Bad(UnpairedSurrogate(at))
      else Good(EncodeChar(hi), p)
  }

  /** After a backslash. */
  function ParseEscape(b: bytes, pos: nat): (r: Parsed<bytes>)
    ensures r.Good? ==> pos < r.pos <= |b|
  {
    if pos >= |b| then Bad(Truncated)
    else
      var c := b[pos];
      if c == QUOTE || c == BACKSLASH || c == 47 then Good([c], pos + 1)
      else if c == 98 then Good([8], pos + 1)
      else if c == 102 then Good([12], pos + 1)
      else if c == 110 then Good([10], pos + 1)
      else if c == 114 then Good([13], pos + 1)
      else if c == 116 then Good([9], pos + 1)
      else if c == 117 then UnicodeEscape(b, pos + 1, pos)
      else Bad(BadEscape(pos))
  }

  /** The rest of a string literal, after `sofar`. */
  function StringFrom(b: bytes, pos: nat, sofar: bytes): (r: Parsed<bytes>)
    ensures r.Good? ==> pos < r.pos <= |b|
    decreases if pos < |b| then |b| - pos else 0
  {
    if pos >= |b| then Bad(Truncated)
    else if b[pos] == QUOTE then Good(sofar, pos + 1)
    else if b[pos] == BACKSLASH then
      match ParseEscape(b, pos + 1)
      case Bad(e) => Bad(e)
      case Good(c, p) => StringFrom(b, p, sofar + c)
    else if b[pos] < 32 then Bad(Unexpected(pos))
    else if b[pos] < 128 then StringFrom(b, pos + 1, sofar + [b[pos]])
    else
      var len := Utf8Len(b[pos]);
      if pos + len > |b| then Bad(Truncated)
      else if !IsWideChar(b[pos..pos + len]) then Bad(Unexpected(pos))
      else StringFrom(b, pos + len, sofar + b[pos..pos + len])
  }

  /** Nesting depth of arrays and objects. */
  function Height(v: Value): nat
    decreases v, 1
  {
    match v
    case Array(items) => 1 + ItemsHeight(items)
    case Object(pairs) => 1 + PairsHeight(pairs)
    case Null => 0
    case Bool(_) => 0
    case Int(_) => 0
    case Float(_) => 0
    case Str(_) => 0
  }

  function ItemsHeight(items: seq<Value>): nat
    decreases items, 0
  {
    if items == [] then 0
    else
      var h, t := Height(items[0]), ItemsHeight(items[1..]);
      if h > t then h else t
  }

  function PairHeight(p: (bytes, Value)): nat
    decreases p, 2
  {
    Height(p.1)
  }

  function PairsHeight(pairs: seq<(bytes, Value)>): nat
    decreases pairs, 0
  {
    if pairs == [] then 0
    else
      var h, t := PairHeight(pairs[0]), PairsHeight(pairs[1..]);
      if h > t then h else t
  }

  /** One value.  A success moves forward, stays in the input, and respects the depth limit. */
  function ParseValue(b: bytes, pos: nat, depth: nat): (r: Parsed<Value>)
    requires pos <= |b| && depth <= MAX_DEPTH
    ensures r.Good? ==> pos < r.pos <= |b| && depth + Height(r.value) <= MAX_DEPTH
    decreases |b| - pos, 0
  {
    if pos == |b| then Bad(Truncated)
    else
      var c := b[pos];
      if c == 110 then ParseLiteral(b, pos, Ascii("null"), Null)
      else if c == 116 then ParseLiteral(b, pos, Ascii("true"), Bool(true))
      else if c == 102 then ParseLiteral(b, pos, Ascii("false"), Bool(false))
      else if c == QUOTE then
        match StringFrom(b, pos + 1, [])
        case Bad(e) => Bad(e)
        case Good(s, p) => Good(Str(s), p)
      else if c == MINUS || IsDigit(c) then ParseNumber(b, pos)
      else if c == OPEN_BRACKET then
        if depth >= MAX_DEPTH then Bad(DepthLimit(pos))
        else
          match ParseItems(b, pos + 1, depth + 1)
          case Bad(e) => Bad(e)
          case Good(items, p) => Good(Array(items), p)
      else if c == OPEN_BRACE then
        if depth >= MAX_DEPTH then Bad(DepthLimit(pos))
        else
          match ParsePairs(b, pos + 1, depth + 1)
          case Bad(e) => Bad(e)
          case Good(pairs, p) => Good(Object(pairs), p)
      else Bad(Unexpected(pos))
  }

  /** Array items after the opening bracket. */
  function ParseItems(b: bytes, pos: nat, depth: nat): (r: Parsed<seq<Value>>)
    requires pos <= |b| && depth <= MAX_DEPTH
    ensures r.Good? ==> pos < r.pos <= |b| && depth + ItemsHeight(r.value) <= MAX_DEPTH
    decreases |b| - pos, 2
  {
    var p := SkipWs(b, pos);
    if p < |b| && b[p] == CLOSE_BRACKET then Good([], p + 1) else ItemsFrom(b, p, depth)
  }

  function ItemsFrom(b: bytes, pos: nat, depth: nat): (r: Parsed<seq<Value>>)
    requires pos <= |b| && depth <= MAX_DEPTH
    ensures r.Good? ==> pos < r.pos <= |b| && depth + ItemsHeight(r.value) <= MAX_DEPTH
    decreases |b| - pos, 1
  {
    match ParseValue(b, SkipWs(b, pos), depth)
    case Bad(e) => Bad(e)
    case Good(v, p) =>
      var q := SkipWs(b, p);
      if q == |b| then Bad(Truncated)
      else if b[q] == COMMA then
        match ItemsFrom(b, q + 1, depth)
        case Bad(e) => Bad(e)
        case Good(rest, w) => Good([v] + rest, w)
      else if b[q] == CLOSE_BRACKET then Good([v], q + 1)
      else Bad(Unexpected(q))
  }

  /** Object pairs after the opening brace. */
  function ParsePairs(b: bytes, pos: nat, depth: nat): (r: Parsed<seq<(bytes, Value)>>)
    requires pos <= |b| && depth <= MAX_DEPTH
    ensures r.Good? ==> pos < r.pos <= |b| && depth + PairsHeight(r.value) <= MAX_DEPTH
    decreases |b| - pos, 2
  {
    var p := SkipWs(b, pos);
    if p < |b| && b[p] == CLOSE_BRACE then Good([], p + 1) else PairsFrom(b, p, depth)
  }

  /** A key and its colon.  After a wrong byte the end of the input reads as truncation. */
  function ParseKey(b: bytes, pos: nat): (r: Parsed<bytes>)
    requires pos <= |b|
    ensures r.Good? ==> pos < r.pos <= |b|
  {
    if pos == |b| then Bad(Truncated)
    else if b[pos] != QUOTE then Bad(Unexpected(pos))
    else
      match StringFrom(b, pos + 1, [])
      case Bad(e) => Bad(e)
      case Good(key, p) =>
        var q := SkipWs(b, p);
        if q < |b| && b[q] == COLON then Good(key, q + 1)
        else if q + 1 < |b| then Bad(Unexpected(q))
        else Bad(Truncated)
  }

  function PairsFrom(b: bytes, pos: nat, depth: nat): (r: Parsed<seq<(bytes, Value)>>)
    requires pos <= |b| && depth <= MAX_DEPTH
    ensures r.Good? ==> pos < r.pos <= |b| && depth + PairsHeight(r.value) <= MAX_DEPTH
    decreases |b| - pos, 1
  {
    match ParseKey(b, SkipWs(b, pos))
    case Bad(e) => Bad(e)
    case Good(key, k) =>
      match ParseValue(b, SkipWs(b, k), depth)
      case Bad(e) => Bad(e)
      case Good(v, p) =>
        var q := SkipWs(b, p);
        if q == |b| then Bad(Truncated)
        else if b[q] == COMMA then
          match PairsFrom(b, q + 1, depth)
          case Bad(e) => Bad(e)
          case Good(rest, w) => Good([(key, v)] + rest, w)
        else if b[q] == CLOSE_BRACE then Good([(key, v)], q + 1)
        else Bad(Unexpected(q))
  }

  /** `parse`: one value and nothing after it but white space. */
  function Parse(b: bytes): (r: Parsed<Value>)
    ensures r.Good? ==> Height(r.value) <= MAX_DEPTH
  {
    match ParseValue(b, SkipWs(b, 0), 0)
    case Bad(e) => Bad(e)
    case Good(v, p) =>
      var q := SkipWs(b, p);
      if q != |b| then Bad(Trailing(q)) else Good(v, q)
  }

  // ---------------------------------------------------------------- the parser undoes the writer

  /** Values the writer is meant for: no floats, 128-bit integers, proper strings. */
  predicate Writable(v: Value)
    decreases v, 1
  {
    match v
    case Null => true
    case Bool(_) => true
    case Int(i) => -I128 <= i < I128
    case Float(_) => false
    case Str(s) => IsUtf8(s)
    case Array(items) => ItemsWritable(items)
    case Object(pairs) => PairsWritable(pairs)
  }

  predicate ItemsWritable(items: seq<Value>)
    decreases items, 0
  {
    items == [] || (Writable(items[0]) && ItemsWritable(items[1..]))
  }

  predicate PairWritable(p: (bytes, Value))
    decreases p, 2
  {
    IsUtf8(p.0) && Writable(p.1)
  }

  predicate PairsWritable(pairs: seq<(bytes, Value)>)
    decreases pairs, 0
  {
    pairs == [] || (PairWritable(pairs[0]) && PairsWritable(pairs[1..]))
  }

  /** The text x stands from i to j. */
  ghost predicate Span(b: bytes, i: nat, j: nat, x: bytes) {
    i <= j <= |b| && b[i..j] == x
  }

  lemma Split(b: bytes, i: nat, j: nat, x: bytes, y: bytes)
    requires Span(b, i, j, x + y)
    ensures Span(b, i, i + |x|, x) && Span(b, i + |x|, j, y) && j == i + |x| + |y|
  {
    var m := i + |x|;
    assert |b[i..j]| == |x| + |y|;
    assert b[i..m] == b[i..j][..|x|] == x;
    assert b[m..j] == b[i..j][|x|..] == y;
  }

  lemma Join(b: bytes, i: nat, m: nat, j: nat, x: bytes, y: bytes)
    requires Span(b, i, m, x) && Span(b, m, j, y)
    ensures Span(b, i, j, x + y)
  {
    assert b[i..j] == b[i..m] + b[m..j];
  }

  /** A byte of a span. */
  lemma SpanAt(b: bytes, i: nat, j: nat, x: bytes, k: nat)
    requires Span(b, i, j, x) && k < |x|
    ensures j == i + |x| <= |b| && b[i + k] == x[k]
  {
    assert b[i..j][k] == b[i + k];
  }

  lemma SpanByte(b: bytes, i: nat, c: byte)
    ensures Span(b, i, i + 1, [c]) <==> i < |b| && b[i] == c
  {
    if i < |b| {
      assert b[i..i + 1] == [b[i]];
    }
  }

  lemma SpanInside(b: bytes, i: nat, j: nat, x: bytes)
    requires Span(b, i, j, x)
    ensures i + |x| == j <= |b|
  {
  }

  lemma SpanEmpty(b: bytes, i: nat)
    ensures i <= |b| ==> Span(b, i, i, [])
  {
  }

  lemma NoWs(b: bytes, pos: nat)
    requires pos <= |b| && (pos < |b| ==> !IsWs(b[pos]))
    ensures SkipWs(b, pos) == pos
  {
  }

  // ---------------------------------------------------------------- strings

  lemma {:induction false} WriteCharsAppend(s: bytes, t: bytes)
    ensures WriteChars(s + t) == WriteChars(s) + WriteChars(t)
    decreases |s|
  {
    if s == [] {
      assert s + t == t;
    } else {
      assert (s + t)[1..] == s[1..] + t;
      WriteCharsAppend(s[1..], t);
    }
  }

  /** Wide characters are written as they are. */
  lemma {:induction false} WriteCharsWide(s: bytes)
    requires forall k :: 0 <= k < |s| ==> s[k] >= 128
    ensures WriteChars(s) == s
    decreases |s|
  {
    if s != [] {
      WriteCharsWide(s[1..]);
      assert s == [s[0]] + s[1..];
    }
  }

  lemma WideBytes(c: bytes)
    requires IsWideChar(c)
    ensures c != [] && forall k :: 0 <= k < |c| ==> c[k] >= 128
  {
  }

  lemma WideWrite(s: bytes, n: nat)
    requires n <= |s| && IsWideChar(s[..n])
    ensures WriteChars(s) == s[..n] + WriteChars(s[n..])
  {
    hide IsWideChar;
    hide WriteChars;
    WideBytes(s[..n]);
    assert s == s[..n] + s[n..];
    WriteCharsAppend(s[..n], s[n..]);
    WriteCharsWide(s[..n]);
  }
}
