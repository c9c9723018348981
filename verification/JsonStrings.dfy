/** JSON string literals (demo-evm/src/json.rs) as a grammar: a literal is a list of units, each of
    which denotes a code point.  UTF-8 and the escapes are defined here apart from the parser, which
    is proved to accept exactly these literals, with these meanings. */
module JsonStrings {
  import opened Bytes
  import opened Json

  // ---------------------------------------------------------------- UTF-8

  /** Unicode scalar values: surrogates are not characters. */
  ghost predicate IsCodePoint(cp: nat) {
    cp < 0xd800 || 0xe000 <= cp < 0x110000
  }

  ghost predicate Trails(c: bytes) {
    forall k :: 1 <= k < |c| ==> 0x80 <= c[k] < 0xc0
  }

  /** The bits that a multi-byte form carries: six in every trailing byte. */
  ghost function Bits(c: bytes): int
    requires 2 <= |c| <= 4
  {
    var low := c[|c| - 1] as int - 0x80;
    if |c| == 2 then (c[0] as int - 0xc0) * 64 + low
    else if |c| == 3 then (c[0] as int - 0xe0) * 4096 + (c[1] as int - 0x80) * 64 + low
    else (c[0] as int - 0xf0) * 262144 + (c[1] as int - 0x80) * 4096 + (c[2] as int - 0x80) * 64 + low
  }

  /** The bytes are the UTF-8 form of the code point (section 3 of RFC 3629). */
  ghost predicate Encodes(c: bytes, cp: nat) {
    && IsCodePoint(cp) && Trails(c)
    && if cp < 0x80 then |c| == 1 && c[0] as nat == cp
       else if cp < 0x800 then |c| == 2 && 0xc0 <= c[0] < 0xe0 && cp == Bits(c)
       else if cp < 0x10000 then |c| == 3 && 0xe0 <= c[0] < 0xf0 && cp == Bits(c)
       else |c| == 4 && 0xf0 <= c[0] < 0xf8 && cp == Bits(c)
  }

  lemma EncodingUnique(c: bytes, d: bytes, cp: nat)
    requires Encodes(c, cp) && Encodes(d, cp)
    ensures c == d
  {
    if cp >= 0x80 {
      var n := |c| - 1;
      assert 0x80 <= c[n] < 0xc0 && 0x80 <= d[n] < 0xc0 && c[n] == d[n];
      if n >= 2 {
        assert 0x80 <= c[1] < 0xc0 && 0x80 <= d[1] < 0xc0 && c[1] == d[1];
      }
      if n >= 3 {
        assert 0x80 <= c[2] < 0xc0 && 0x80 <= d[2] < 0xc0 && c[2] == d[2];
      }
    }
  }

  lemma CharEncodes(cp: nat)
    requires IsCodePoint(cp)
    ensures Encodes(EncodeChar(cp), cp)
  {
    var a, b, c := cp / 64, cp / 4096, cp / 262144;
    assert b == a / 64 && c == b / 64;
    assert cp == a * 64 + cp % 64 && a == b * 64 + a % 64 && b == c * 64 + b % 64;
  }

  /** The UTF-8 form of a code point. */
  ghost function Utf8(cp: nat): (c: bytes)
    requires IsCodePoint(cp)
    ensures Encodes(c, cp)
  {
    CharEncodes(cp);
    var c :| Encodes(c, cp);
    c
  }

  lemma Utf8Is(cp: nat)
    requires IsCodePoint(cp)
    ensures EncodeChar(cp) == Utf8(cp)
  {
    hide EncodeChar;
    CharEncodes(cp);
    EncodingUnique(EncodeChar(cp), Utf8(cp), cp);
  }

  /** The byte tests of the parser accept exactly the UTF-8 forms beyond ASCII, and the first byte
      tells the length. */
  lemma WideCharIs(c: bytes)
    ensures IsWideChar(c) <==> exists cp: nat :: cp >= 0x80 && Encodes(c, cp)
    ensures IsWideChar(c) ==> c != [] && c[0] >= 0x80 && |c| == Utf8Len(c[0])
  {
    if IsWideChar(c) {
      var cp: nat := Bits(c);
      assert Encodes(c, cp);
    }
    if cp: nat :| cp >= 0x80 && Encodes(c, cp) {
      WideEncoding(c, cp);
    }
  }

  lemma WideEncoding(c: bytes, cp: nat)
    requires cp >= 0x80 && Encodes(c, cp)
    ensures IsWideChar(c)
  {
    assert 0x80 <= c[1] < 0xc0;
    if |c| >= 3 {
      assert 0x80 <= c[2] < 0xc0;
    }
    if |c| == 4 {
      assert 0x80 <= c[3] < 0xc0;
    }
  }

  // ---------------------------------------------------------------- units

  /** A hexadecimal digit, in either case. */
  datatype Hex = Hex(digit: nat, upper: bool)

  /** One element of a literal: a character, a one-letter escape, a four-digit escape, or a
      surrogate pair of them. */
  datatype Unit = Plain(cp: nat) | Short(letter: byte) | Code(h: seq<Hex>) | Pair(hi: seq<Hex>, lo: seq<Hex>)

  ghost predicate FourDigits(h: seq<Hex>) {
    |h| == 4 && h[0].digit < 16 && h[1].digit < 16 && h[2].digit < 16 && h[3].digit < 16
  }

  ghost function Sixteen(h: seq<Hex>): (n: nat)
    requires FourDigits(h)
    ensures n < 0x10000
  {
    h[0].digit * 4096 + h[1].digit * 256 + h[2].digit * 16 + h[3].digit
  }

  /** 0-9, A-F and a-f. */
  ghost function HexLetter(h: Hex): byte
    requires h.digit < 16
  {
    if h.digit < 10 then 48 + h.digit else if h.upper then 65 + (h.digit - 10) else 97 + (h.digit - 10)
  }

  ghost function HexText(h: seq<Hex>): (r: bytes)
    requires FourDigits(h)
    ensures |r| == 4
  {
    [HexLetter(h[0]), HexLetter(h[1]), HexLetter(h[2]), HexLetter(h[3])]
  }

  /** The one-letter escapes, b, f, n, r and t among them. */
  ghost function ShortPoint(letter: byte): Option<nat> {
    if letter == 34 || letter == 92 || letter == 47 then Some(letter as nat)
    else if letter == 98 then Some(8)
    else if letter == 102 then Some(12)
    else if letter == 110 then Some(10)
    else if letter == 114 then Some(13)
    else if letter == 116 then Some(9)
    else None
  }

  ghost predicate ProperUnit(u: Unit) {
    match u
    case Plain(cp) => IsCodePoint(cp) && cp >= 32 && cp != 34 && cp != 92
    case Short(letter) => ShortPoint(letter).Some?
    case Code(h) => FourDigits(h) && IsCodePoint(Sixteen(h))
    case Pair(hi, lo) =>
      FourDigits(hi) && FourDigits(lo) && 0xd800 <= Sixteen(hi) < 0xdc00 && 0xdc00 <= Sixteen(lo) < 0xe000
  }

  /** The code point a unit denotes. */
  ghost function Point(u: Unit): (cp: nat)
    requires ProperUnit(u)
    ensures IsCodePoint(cp)
  {
    match u
    case Plain(cp) => cp
    case Short(letter) => ShortPoint(letter).value
    case Code(h) => Sixteen(h)
    case Pair(hi, lo) => 0x10000 + (Sixteen(hi) - 0xd800) * 0x400 + (Sixteen(lo) - 0xdc00)
  }

  ghost function UnitRaw(u: Unit): bytes
    requires ProperUnit(u)
  {
    match u
    case Plain(cp) => Utf8(cp)
    case Short(letter) => [92, letter]
    case Code(h) => [92, 117] + HexText(h)
    case Pair(hi, lo) => [92, 117] + HexText(hi) + ([92, 117] + HexText(lo))
  }

  ghost predicate ProperUnits(us: seq<Unit>) {
    forall k :: 0 <= k < |us| ==> ProperUnit(us[k])
  }

  /** What stands between the quotes. */
  ghost function UnitsRaw(us: seq<Unit>): bytes
    requires ProperUnits(us)
  {
    if us == [] then [] else UnitRaw(us[0]) + UnitsRaw(us[1..])
  }

  /** The string that a literal denotes: the UTF-8 forms of its code points. */
  ghost function UnitsText(us: seq<Unit>): bytes
    requires ProperUnits(us)
  {
    if us == [] then [] else Utf8(Point(us[0])) + UnitsText(us[1..])
  }

  // ---------------------------------------------------------------- units are parsed

  lemma HexValueIs(h: Hex)
    requires h.digit < 16
    ensures HexValue(HexLetter(h)) == Some(h.digit)
  {
  }

  lemma HexReads(b: bytes, i: nat, j: nat, h: seq<Hex>, at: nat)
    requires FourDigits(h) && Span(b, i, j, HexText(h))
    ensures Hex4(b, i, at) == Good(Sixteen(h), j)
  {
    hide HexLetter;
    hide Span;
    var x := HexText(h);
    SpanAt(b, i, j, x, 0);
    SpanAt(b, i, j, x, 1);
    SpanAt(b, i, j, x, 2);
    SpanAt(b, i, j, x, 3);
    HexValueIs(h[0]);
    HexValueIs(h[1]);
    HexValueIs(h[2]);
    HexValueIs(h[3]);
    HexFoldSmall(b, i);
  }

  /** A backslash, the letter u and four digits. */
  lemma EscapeReads(b: bytes, i: nat, j: nat, h: seq<Hex>, at: nat)
    requires FourDigits(h) && Span(b, i, j, [92, 117] + HexText(h))
    ensures j == i + 6 <= |b| && b[i] == 92 && b[i + 1] == 117 && Hex4(b, i + 2, at) == Good(Sixteen(h), j)
  {
    hide Hex4;
    hide HexText;
    hide Sixteen;
    hide Span;
    var head: bytes := [92, 117];
    Split(b, i, j, head, HexText(h));
    SpanAt(b, i, i + 2, head, 0);
    SpanAt(b, i, i + 2, head, 1);
    HexReads(b, i + 2, j, h, at);
    HexInside(b, i + 2, at);
  }

  lemma HexInside(b: bytes, i: nat, at: nat)
    ensures Hex4(b, i, at).Good? ==> i + 4 <= |b|
  {
  }

  /** One unit is read, and what it denotes is appended. */
  lemma UnitReads(b: bytes, i: nat, j: nat, u: Unit, sofar: bytes)
    requires ProperUnit(u) && Span(b, i, j, UnitRaw(u))
    ensures i < j <= |b| && b[i] != 34 && StringFrom(b, i, sofar) == StringFrom(b, j, sofar + Utf8(Point(u)))
  {
    hide Span;
    hide StringFrom;
    match u {
      case Plain(cp) => PlainReads(b, i, j, cp, sofar);
      case Short(letter) => ShortReads(b, i, j, letter, sofar);
      case Code(h) => CodeReads(b, i, j, h, sofar);
      case Pair(hi, lo) => PairReads(b, i, j, hi, lo, sofar);
    }
  }

  lemma PlainReads(b: bytes, i: nat, j: nat, cp: nat, sofar: bytes)
    requires ProperUnit(Plain(cp)) && Span(b, i, j, Utf8(cp))
    ensures i < j <= |b| && b[i] != 34 && StringFrom(b, i, sofar) == StringFrom(b, j, sofar + Utf8(cp))
  {
    hide IsWideChar;
    hide Utf8Len;
    var c := Utf8(cp);
    SpanAt(b, i, j, c, 0);
    if cp < 0x80 {
      assert c == [c[0]];
    } else {
      WideCharIs(c);
    }
  }

  lemma AsciiPoint(cp: nat, c: byte)
    requires cp < 0x80 && cp == c as nat
    ensures Utf8(cp) == [c]
  {
    assert Utf8(cp)[0] as nat == cp;
  }

  lemma ShortReads(b: bytes, i: nat, j: nat, letter: byte, sofar: bytes)
    requires ShortPoint(letter).Some? && Span(b, i, j, [92, letter])
    ensures j == i + 2 <= |b| && b[i] == 92
    ensures StringFrom(b, i, sofar) == StringFrom(b, j, sofar + Utf8(ShortPoint(letter).value))
  {
    hide Span;
    var raw: bytes := [92, letter];
    SpanAt(b, i, j, raw, 0);
    SpanAt(b, i, j, raw, 1);
    var cp := ShortPoint(letter).value;
    AsciiPoint(cp, cp as byte);
    assert ParseEscape(b, i + 1) == Good([cp as byte], i + 2);
  }

  lemma CodeReads(b: bytes, i: nat, j: nat, h: seq<Hex>, sofar: bytes)
    requires ProperUnit(Code(h)) && Span(b, i, j, UnitRaw(Code(h)))
    ensures j == i + 6 <= |b| && b[i] == 92
    ensures StringFrom(b, i, sofar) == StringFrom(b, j, sofar + Utf8(Sixteen(h)))
  {
    hide Hex4;
    hide EncodeChar;
    hide HexText;
    hide Sixteen;
    hide Span;
    EscapeReads(b, i, j, h, i + 1);
    Utf8Is(Sixteen(h));
    assert ParseEscape(b, i + 1) == UnicodeEscape(b, i + 2, i + 1);
    assert UnicodeEscape(b, i + 2, i + 1) == Good(Utf8(Sixteen(h)), j);
  }

  lemma PairReads(b: bytes, i: nat, j: nat, hi: seq<Hex>, lo: seq<Hex>, sofar: bytes)
    requires ProperUnit(Pair(hi, lo)) && Span(b, i, j, UnitRaw(Pair(hi, lo)))
    ensures j == i + 12 <= |b| && b[i] == 92
    ensures StringFrom(b, i, sofar) == StringFrom(b, j, sofar + Utf8(Point(Pair(hi, lo))))
  {
    hide Hex4;
    hide EncodeChar;
    hide HexText;
    hide Sixteen;
    hide Span;
    Split(b, i, j, [92, 117] + HexText(hi), [92, 117] + HexText(lo));
    EscapeReads(b, i, i + 6, hi, i + 1);
    EscapeReads(b, i + 6, j, lo, i + 1);
    Utf8Is(Point(Pair(hi, lo)));
    assert ParseEscape(b, i + 1) == UnicodeEscape(b, i + 2, i + 1);
    assert UnicodeEscape(b, i + 2, i + 1) == Good(Utf8(Point(Pair(hi, lo))), j);
  }

  /** Every literal of the grammar is read, to the string it denotes. */
  lemma {:induction false} LiteralReads(b: bytes, i: nat, j: nat, us: seq<Unit>, sofar: bytes)
    requires ProperUnits(us) && Span(b, i, j, UnitsRaw(us)) && j < |b| && b[j] == 34
    ensures StringFrom(b, i, sofar) == Good(sofar + UnitsText(us), j + 1)
    decreases |us|
  {
    hide StringFrom;
    hide UnitRaw;
    hide ProperUnit;
    hide Span;
    if us == [] {
      SpanInside(b, i, j, []);
      StringEnds(b, i, sofar);
      assert sofar + UnitsText(us) == sofar;
    } else {
      var u := us[0];
      var m, c := i + |UnitRaw(u)|, Utf8(Point(u));
      Split(b, i, j, UnitRaw(u), UnitsRaw(us[1..]));
      UnitReads(b, i, m, u, sofar);
      LiteralReads(b, m, j, us[1..], sofar + c);
      assert sofar + c + UnitsText(us[1..]) == sofar + UnitsText(us);
    }
  }

  lemma StringEnds(b: bytes, pos: nat, sofar: bytes)
    requires pos < |b| && b[pos] == 34
    ensures StringFrom(b, pos, sofar) == Good(sofar, pos + 1)
  {
  }

  // ---------------------------------------------------------------- only units are parsed

  lemma HexValueOnly(c: byte) returns (h: Hex)
    requires HexValue(c).Some?
    ensures h.digit < 16 && HexLetter(h) == c && HexValue(c).value == h.digit
  {
    h := Hex(HexValue(c).value, 65 <= c <= 70);
  }

  lemma HexOnly(b: bytes, pos: nat, at: nat) returns (h: seq<Hex>)
    requires Hex4(b, pos, at).Good?
    ensures FourDigits(h) && Span(b, pos, pos + 4, HexText(h)) && Hex4(b, pos, at) == Good(Sixteen(h), pos + 4)
  {
    HexFoldSmall(b, pos);
    HexStep(b, pos, 1);
    HexStep(b, pos, 2);
    HexStep(b, pos, 3);
    HexStep(b, pos, 4);
    var h0 := HexValueOnly(b[pos]);
    var h1 := HexValueOnly(b[pos + 1]);
    var h2 := HexValueOnly(b[pos + 2]);
    var h3 := HexValueOnly(b[pos + 3]);
    h := [h0, h1, h2, h3];
    hide HexLetter;
    assert b[pos..pos + 4] == [b[pos], b[pos + 1], b[pos + 2], b[pos + 3]];
  }

  /** A successful escape is a unit's. */
  lemma EscapeOnly(b: bytes, pos: nat) returns (u: Unit)
    requires pos < |b| && b[pos] == 92 && ParseEscape(b, pos + 1).Good?
    ensures var r := ParseEscape(b, pos + 1);
      ProperUnit(u) && Span(b, pos, r.pos, UnitRaw(u)) && r.value == Utf8(Point(u))
  {
    var c := b[pos + 1];
    if c != 117 {
      u := Short(c);
      var cp := ShortPoint(c).value;
      AsciiPoint(cp, cp as byte);
      assert b[pos..pos + 2] == [92, c];
    } else {
      u := UnicodeOnly(b, pos);
    }
  }

  lemma UnicodeOnly(b: bytes, pos: nat) returns (u: Unit)
    requires pos + 1 < |b| && b[pos] == 92 && b[pos + 1] == 117 && UnicodeEscape(b, pos + 2, pos + 1).Good?
    ensures var r := UnicodeEscape(b, pos + 2, pos + 1);
      ProperUnit(u) && Span(b, pos, r.pos, UnitRaw(u)) && r.value == Utf8(Point(u))
  {
    hide Hex4;
    hide EncodeChar;
    hide HexText;
    hide Sixteen;
    hide Span;
    var h := HexOnly(b, pos + 2, pos + 1);
    MarkedDigits(b, pos, HexText(h));
    if 0xd800 <= Sixteen(h) < 0xdc00 {
      var lo := HexOnly(b, pos + 8, pos + 1);
      MarkedDigits(b, pos + 6, HexText(lo));
      u := Pair(h, lo);
      Join(b, pos, pos + 6, pos + 12, [92, 117] + HexText(h), [92, 117] + HexText(lo));
    } else {
      u := Code(h);
    }
    Utf8Is(Point(u));
  }

  lemma MarkedDigits(b: bytes, pos: nat, digits: bytes)
    requires pos + 1 < |b| && b[pos] == 92 && b[pos + 1] == 117 && Span(b, pos + 2, pos + 6, digits)
    ensures Span(b, pos, pos + 6, [92, 117] + digits)
  {
    assert b[pos..pos + 2] == [92, 117];
    Join(b, pos, pos + 2, pos + 6, [92, 117], digits);
  }

  /** Every step of the string loop consumes one unit. */
  lemma UnitOnly(b: bytes, pos: nat, sofar: bytes) returns (u: Unit, p: nat)
    requires pos < |b| && b[pos] != 34 && StringFrom(b, pos, sofar).Good?
    ensures pos < p <= |b| && ProperUnit(u) && Span(b, pos, p, UnitRaw(u))
    ensures StringFrom(b, pos, sofar) == StringFrom(b, p, sofar + Utf8(Point(u)))
  {
    hide ParseEscape;
    hide IsWideChar;
    hide Encodes;
    if b[pos] == 92 {
      u := EscapeOnly(b, pos);
      p := ParseEscape(b, pos + 1).pos;
    } else if b[pos] < 128 {
      u, p := Plain(b[pos] as nat), pos + 1;
      AsciiPoint(b[pos] as nat, b[pos]);
    } else {
      p := pos + Utf8Len(b[pos]);
      var c := b[pos..p];
      WideCharIs(c);
      var cp: nat :| cp >= 0x80 && Encodes(c, cp);
      u := Plain(cp);
      WideUnit(c, cp);
    }
  }

  lemma WideUnit(c: bytes, cp: nat)
    requires cp >= 0x80 && Encodes(c, cp)
    ensures ProperUnit(Plain(cp)) && Utf8(cp) == c
  {
    EncodingUnique(c, Utf8(cp), cp);
  }

  /** Nothing but a literal of the grammar is accepted. */
  lemma {:induction false} LiteralOnly(b: bytes, pos: nat, sofar: bytes) returns (us: seq<Unit>)
    requires pos <= |b| && StringFrom(b, pos, sofar).Good?
    ensures var r := StringFrom(b, pos, sofar);
      ProperUnits(us) && r.value == sofar + UnitsText(us) && Span(b, pos, r.pos - 1, UnitsRaw(us)) && b[r.pos - 1] == 34
    decreases |b| - pos
  {
    NonEmpty(b, pos, sofar);
    hide StringFrom;
    hide UnitRaw;
    hide ProperUnit;
    hide Span;
    hide UnitsRaw;
    hide UnitsText;
    if b[pos] == 34 {
      us := [];
      StringEnds(b, pos, sofar);
      SpanEmpty(b, pos);
      NoUnits(sofar);
    } else {
      var u, p := UnitOnly(b, pos, sofar);
      var c := Utf8(Point(u));
      var more := LiteralOnly(b, p, sofar + c);
      us := [u] + more;
      OneMoreUnit(u, more);
      Join(b, pos, p, StringFrom(b, p, sofar + c).pos - 1, UnitRaw(u), UnitsRaw(more));
      Appended(sofar, c, UnitsText(more));
    }
  }

  lemma NoUnits(sofar: bytes)
    ensures UnitsRaw([]) == [] && sofar + UnitsText([]) == sofar
  {
  }

  lemma Appended(x: bytes, y: bytes, z: bytes)
    ensures x + y + z == x + (y + z)
  {
  }

  lemma NonEmpty(b: bytes, pos: nat, sofar: bytes)
    requires pos <= |b| && StringFrom(b, pos, sofar).Good?
    ensures pos < |b|
  {
  }

  lemma OneMoreUnit(u: Unit, us: seq<Unit>)
    requires ProperUnit(u) && ProperUnits(us)
    ensures ProperUnits([u] + us) && UnitsRaw([u] + us) == UnitRaw(u) + UnitsRaw(us)
    ensures UnitsText([u] + us) == Utf8(Point(u)) + UnitsText(us)
  {
    hide UnitRaw;
    hide ProperUnit;
    assert ([u] + us)[1..] == us;
  }

  // ---------------------------------------------------------------- units are written

  /** What the writer emits: letter escapes for the quote, the backslash and three control
      characters, lower-case four-digit escapes for the others, and everything else as it is. */
  ghost predicate Tidy(u: Unit) {
    match u
    case Plain(_) => true
    case Short(letter) => letter == 34 || letter == 92 || letter == 110 || letter == 114 || letter == 116
    case Code(h) =>
      && FourDigits(h) && Sixteen(h) < 32 && Sixteen(h) != 9 && Sixteen(h) != 10 && Sixteen(h) != 13
      && forall k :: 0 <= k < 4 ==> !h[k].upper
    case Pair(_, _) => false
  }

  ghost predicate AllTidy(us: seq<Unit>) {
    forall k :: 0 <= k < |us| ==> Tidy(us[k])
  }

  lemma AsciiWritten(c: byte) returns (u: Unit)
    requires c < 128
    ensures ProperUnit(u) && Tidy(u) && UnitRaw(u) == Escaped(c) && Utf8(Point(u)) == [c]
  {
    AsciiPoint(c as nat, c);
    if c == 34 || c == 92 {
      u := Short(c);
    } else if c == 10 {
      u := Short(110);
    } else if c == 13 {
      u := Short(114);
    } else if c == 9 {
      u := Short(116);
    } else if c < 32 {
      u := Code([Hex(0, false), Hex(0, false), Hex(c as nat / 16, false), Hex(c as nat % 16, false)]);
    } else {
      u := Plain(c as nat);
    }
  }

  /** Every proper string is written as a tidy literal that denotes it. */
  lemma {:induction false} StringWritten(s: bytes) returns (us: seq<Unit>)
    requires IsUtf8(s)
    ensures ProperUnits(us) && AllTidy(us) && UnitsRaw(us) == WriteChars(s) && UnitsText(us) == s
    decreases |s|
  {
    hide Escaped;
    hide IsWideChar;
    hide Utf8Len;
    hide UnitRaw;
    hide ProperUnit;
    hide Tidy;
    if s == [] {
      us := [];
    } else if s[0] < 128 {
      var u := AsciiWritten(s[0]);
      var more := StringWritten(s[1..]);
      us := [u] + more;
      OneMoreUnit(u, more);
      assert s == [s[0]] + s[1..];
    } else {
      var n := Utf8Len(s[0]);
      var c := s[..n];
      WideCharIs(c);
      var u := WideWritten(c);
      var more := StringWritten(s[n..]);
      us := [u] + more;
      OneMoreUnit(u, more);
      WideWrite(s, n);
      assert s == c + s[n..];
    }
  }

  lemma WideWritten(c: bytes) returns (u: Unit)
    requires IsWideChar(c)
    ensures ProperUnit(u) && Tidy(u) && UnitRaw(u) == c && Utf8(Point(u)) == c
  {
    hide IsWideChar;
    hide Encodes;
    WideCharIs(c);
    var cp: nat :| cp >= 0x80 && Encodes(c, cp);
    u := Plain(cp);
    WideUnit(c, cp);
  }

  /** A literal denotes proper UTF-8. */
  lemma {:induction false} TextIsUtf8(us: seq<Unit>)
    requires ProperUnits(us)
    ensures IsUtf8(UnitsText(us))
    decreases |us|
  {
    hide ProperUnit;
    hide UnitRaw;
    if us != [] {
      var c, more := Utf8(Point(us[0])), UnitsText(us[1..]);
      TextIsUtf8(us[1..]);
      PrependChar(Point(us[0]), more);
    }
  }

  lemma PrependChar(cp: nat, more: bytes)
    requires IsCodePoint(cp) && IsUtf8(more)
    ensures IsUtf8(Utf8(cp) + more)
  {
    hide IsWideChar;
    var c := Utf8(cp);
    WideCharIs(c);
    assert (c + more)[..|c|] == c && (c + more)[|c|..] == more;
  }

  /** The proper strings are those that some literal denotes. */
  lemma Utf8Iff(s: bytes)
    ensures IsUtf8(s) <==> exists us :: ProperUnits(us) && UnitsText(us) == s
  {
    hide IsUtf8;
    hide UnitsText;
    hide ProperUnits;
    if IsUtf8(s) {
      var us := StringWritten(s);
    }
    if us :| ProperUnits(us) && UnitsText(us) == s {
      TextIsUtf8(us);
    }
  }
}
