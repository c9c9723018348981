/** JSON numbers (section 6 of RFC 8259) as a grammar of digit sequences: the parser accepts exactly
    these, as 128-bit integers when there is neither fraction nor exponent and as the text they were
    read from otherwise. */
module JsonNumbers {
  import opened Bytes
  import opened Json

  datatype Exponent = Exponent(mark: byte, sign: bytes, digits: seq<nat>)

  datatype Num = Num(negative: bool, whole: seq<nat>, fraction: seq<nat>, exponent: Option<Exponent>)

  ghost predicate AreDigits(ds: seq<nat>) {
    forall k :: 0 <= k < |ds| ==> ds[k] < 10
  }

  ghost function DigitText(ds: seq<nat>): (r: bytes)
    requires AreDigits(ds)
    ensures |r| == |ds|
  {
    seq(|ds|, k requires 0 <= k < |ds| => 48 + ds[k])
  }

  ghost function DecimalValue(ds: seq<nat>): nat {
    if ds == [] then 0 else 10 * DecimalValue(ds[..|ds| - 1]) + ds[|ds| - 1]
  }

  ghost function Integer(n: Num): int {
    if n.negative then -(DecimalValue(n.whole) as int) else DecimalValue(n.whole)
  }

  /** Neither fraction nor exponent. */
  ghost predicate IsInteger(n: Num) {
    n.fraction == [] && n.exponent == None
  }

  ghost predicate ProperExponent(e: Exponent) {
    && (e.mark == 101 || e.mark == 69) && (e.sign == [] || e.sign == [43] || e.sign == [45])
    && e.digits != [] && AreDigits(e.digits)
  }

  /** No leading zeros, digits after a point and after an exponent mark, integers of 128 bits. */
  ghost predicate ProperNum(n: Num) {
    && n.whole != [] && AreDigits(n.whole) && (n.whole[0] == 0 ==> |n.whole| == 1)
    && AreDigits(n.fraction) && (n.exponent.Some? ==> ProperExponent(n.exponent.value))
    && (IsInteger(n) ==>
          -170141183460469231731687303715884105728 <= Integer(n) <= 170141183460469231731687303715884105727)
  }

  ghost function WholeRaw(negative: bool, whole: seq<nat>): bytes
    requires AreDigits(whole)
  {
    (if negative then [45] else []) + DigitText(whole)
  }

  ghost function FractionRaw(fraction: seq<nat>): bytes
    requires AreDigits(fraction)
  {
    if fraction == [] then [] else [46] + DigitText(fraction)
  }

  ghost function ExponentRaw(e: Option<Exponent>): bytes
    requires e.Some? ==> ProperExponent(e.value)
  {
    match e case None => [] case Some(x) => [x.mark] + (x.sign + DigitText(x.digits))
  }

  ghost function NumRaw(n: Num): bytes
    requires ProperNum(n)
  {
    WholeRaw(n.negative, n.whole) + (FractionRaw(n.fraction) + ExponentRaw(n.exponent))
  }

  ghost function NumMeans(n: Num): Value
    requires ProperNum(n)
  {
    if IsInteger(n) then Int(Integer(n)) else Float(NumRaw(n))
  }

  /** A number ends where no digit, point or exponent mark follows. */
  ghost predicate Ends(b: bytes, j: nat) {
    j < |b| ==> !(48 <= b[j] <= 57 || b[j] == 46 || b[j] == 101 || b[j] == 69)
  }

  // ---------------------------------------------------------------- digits

  lemma {:induction false} DecimalOfText(ds: seq<nat>)
    requires AreDigits(ds)
    ensures DecimalOf(DigitText(ds)) == DecimalValue(ds)
    decreases |ds|
  {
    if ds != [] {
      var n := |ds| - 1;
      DecimalOfText(ds[..n]);
      assert DigitText(ds)[..n] == DigitText(ds[..n]);
    }
  }

  lemma DigitsRead(b: bytes, i: nat, j: nat, ds: seq<nat>)
    requires AreDigits(ds) && ds != [] && Span(b, i, j, DigitText(ds)) && !DigitAt(b, j)
    ensures DigitAt(b, i) && b[i] == 48 + ds[0] && j <= |b| && DigitsEnd(b, i) == j && (|ds| == 1 ==> j == i + 1)
  {
    hide Span;
    SpanAt(b, i, j, DigitText(ds), 0);
    forall k | i <= k < j
      ensures DigitAt(b, k)
    {
      SpanAt(b, i, j, DigitText(ds), k - i);
    }
    EndOfRun(b, i, j);
  }

  lemma {:induction false} EndOfRun(b: bytes, i: nat, j: nat)
    requires i <= j <= |b| && !DigitAt(b, j) && forall k :: i <= k < j ==> DigitAt(b, k)
    ensures DigitsEnd(b, i) == j
    decreases j - i
  {
    if i < j {
      assert DigitAt(b, i);
      EndOfRun(b, i + 1, j);
    }
  }

  /** The digits that a scan of them passes. */
  lemma DigitsOnly(b: bytes, pos: nat) returns (ds: seq<nat>)
    requires DigitAt(b, pos)
    ensures ds != [] && AreDigits(ds) && ds[0] + 48 == b[pos] as nat
    ensures Span(b, pos, DigitsEnd(b, pos), DigitText(ds))
  {
    var end := DigitsEnd(b, pos);
    AllDigits(b, pos);
    ds := seq(end - pos, k requires 0 <= k < end - pos => b[pos + k] as int - 48);
    assert b[pos..end] == DigitText(ds);
  }

  lemma {:induction false} AllDigits(b: bytes, pos: nat)
    requires pos <= |b|
    ensures forall k :: pos <= k < DigitsEnd(b, pos) ==> IsDigit(b[k])
    decreases |b| - pos
  {
    if pos < |b| && IsDigit(b[pos]) {
      AllDigits(b, pos + 1);
    }
  }

  // ---------------------------------------------------------------- every number is read

  /** A marking byte before a text. */
  lemma Marked(b: bytes, i: nat, j: nat, mark: byte, x: bytes)
    requires Span(b, i, j, [mark] + x)
    ensures i < |b| && b[i] == mark && Span(b, i + 1, j, x)
  {
    hide Span;
    Split(b, i, j, [mark], x);
    SpanAt(b, i, i + 1, [mark], 0);
  }

  lemma WholeReads(b: bytes, i: nat, j: nat, negative: bool, whole: seq<nat>)
    requires AreDigits(whole) && whole != [] && (whole[0] == 0 ==> |whole| == 1)
    requires Span(b, i, j, WholeRaw(negative, whole)) && !DigitAt(b, j)
    ensures i < j <= |b| && IntegerEnd(b, i) == Good((), j) && (b[i] == 45 || IsDigit(b[i]))
  {
    hide DigitsEnd;
    hide DigitText;
    hide Span;
    if negative {
      Marked(b, i, j, 45, DigitText(whole));
      DigitsRead(b, i + 1, j, whole);
    } else {
      assert WholeRaw(negative, whole) == DigitText(whole);
      DigitsRead(b, i, j, whole);
    }
  }

  lemma FractionReads(b: bytes, i: nat, j: nat, fraction: seq<nat>, start: nat)
    requires AreDigits(fraction) && Span(b, i, j, FractionRaw(fraction))
    requires !DigitAt(b, j) && (j < |b| ==> b[j] != 46)
    ensures i <= j <= |b| && FractionEnd(b, i, start) == Good((), j)
  {
    hide DigitsEnd;
    hide DigitText;
    hide Span;
    if fraction == [] {
      SpanInside(b, i, j, []);
    } else {
      Marked(b, i, j, 46, DigitText(fraction));
      DigitsRead(b, i + 1, j, fraction);
    }
  }

  /** The digits of an exponent, after an optional sign. */
  lemma SignReads(b: bytes, i: nat, j: nat, sign: bytes, ds: seq<nat>)
    requires (sign == [] || sign == [43] || sign == [45]) && AreDigits(ds) && ds != []
    requires Span(b, i, j, sign + DigitText(ds)) && !DigitAt(b, j)
    ensures var q := if i < |b| && (b[i] == 43 || b[i] == 45) then i + 1 else i;
      DigitAt(b, q) && q <= j <= |b| && DigitsEnd(b, q) == j
  {
    hide DigitsEnd;
    hide DigitText;
    hide Span;
    Split(b, i, j, sign, DigitText(ds));
    if sign != [] {
      SpanAt(b, i, i + |sign|, sign, 0);
    }
    DigitsRead(b, i + |sign|, j, ds);
  }

  lemma ExponentReads(b: bytes, i: nat, j: nat, e: Option<Exponent>, start: nat)
    requires (e.Some? ==> ProperExponent(e.value)) && Span(b, i, j, ExponentRaw(e)) && Ends(b, j)
    ensures i <= j <= |b| && ExponentEnd(b, i, start) == Good((), j)
  {
    hide DigitsEnd;
    hide DigitText;
    hide Span;
    match e {
      case Some(x) =>
        Marked(b, i, j, x.mark, x.sign + DigitText(x.digits));
        SignReads(b, i + 1, j, x.sign, x.digits);
      case None =>
        SpanInside(b, i, j, []);
    }
  }

  /** Where a fraction starts there is a point or nothing, and likewise for an exponent. */
  lemma PartStarts(b: bytes, i: nat, m: nat, j: nat, fraction: seq<nat>, e: Option<Exponent>)
    requires AreDigits(fraction) && (e.Some? ==> ProperExponent(e.value)) && Ends(b, j)
    requires Span(b, i, m, FractionRaw(fraction)) && Span(b, m, j, ExponentRaw(e))
    ensures !DigitAt(b, i) && !DigitAt(b, m) && (m < |b| ==> b[m] != 46)
  {
    hide DigitText;
    hide Span;
    SpanInside(b, i, m, FractionRaw(fraction));
    SpanInside(b, m, j, ExponentRaw(e));
    if e.Some? {
      SpanAt(b, m, j, ExponentRaw(e), 0);
    }
    if fraction != [] {
      SpanAt(b, i, m, FractionRaw(fraction), 0);
    }
  }

  lemma NumReads(b: bytes, i: nat, j: nat, n: Num)
    requires ProperNum(n) && Span(b, i, j, NumRaw(n)) && Ends(b, j)
    ensures i < j <= |b| && ParseNumber(b, i) == Good(NumMeans(n), j) && (b[i] == 45 || IsDigit(b[i]))
  {
    hide ParseNumber;
    hide IntegerEnd;
    hide FractionEnd;
    hide ExponentEnd;
    hide NumMeans;
    hide WholeRaw;
    hide FractionRaw;
    hide ExponentRaw;
    hide IsInteger;
    hide Span;
    var w, f, e := WholeRaw(n.negative, n.whole), FractionRaw(n.fraction), ExponentRaw(n.exponent);
    Split(b, i, j, w, f + e);
    var p := i + |w|;
    Split(b, p, j, f, e);
    var q := p + |f|;
    PartStarts(b, p, q, j, n.fraction, n.exponent);
    WholeReads(b, i, p, n.negative, n.whole);
    FractionReads(b, p, q, n.fraction, i);
    ExponentReads(b, q, j, n.exponent, i);
    IntegerParts(n);
    PartsParse(b, i, n, p, q, j);
  }

  lemma IntegerParts(n: Num)
    requires ProperNum(n)
    ensures IsInteger(n) <==> |FractionRaw(n.fraction)| + |ExponentRaw(n.exponent)| == 0
  {
  }

  lemma PartsParse(b: bytes, i: nat, n: Num, p: nat, q: nat, j: nat)
    requires ProperNum(n) && i < p <= q <= j <= |b| && Span(b, i, j, NumRaw(n))
    requires IntegerEnd(b, i) == Good((), p) && FractionEnd(b, p, i) == Good((), q)
    requires ExponentEnd(b, q, i) == Good((), j) && (IsInteger(n) <==> j == p)
    ensures ParseNumber(b, i) == Good(NumMeans(n), j)
  {
    hide IntegerEnd;
    hide FractionEnd;
    hide ExponentEnd;
    hide IntOf;
    hide Integer;
    hide NumRaw;
    IntegerReads(n);
  }

  lemma IntegerReads(n: Num)
    requires ProperNum(n)
    ensures IsInteger(n) ==> IntOf(NumRaw(n)) == Integer(n) && -I128 <= Integer(n) < I128
  {
    if IsInteger(n) {
      DecimalOfText(n.whole);
      WholeIs(n.negative, n.whole);
      assert NumRaw(n) == WholeRaw(n.negative, n.whole);
    }
  }

  lemma WholeIs(negative: bool, whole: seq<nat>)
    requires AreDigits(whole) && whole != []
    ensures IntOf(WholeRaw(negative, whole)) ==
      if negative then -DecimalOf(DigitText(whole)) else DecimalOf(DigitText(whole))
  {
    hide DecimalOf;
    var r := WholeRaw(negative, whole);
    if negative {
      assert r[1..] == DigitText(whole);
    } else {
      assert r == DigitText(whole);
    }
  }

  // ---------------------------------------------------------------- only numbers are read

  lemma WholeOnly(b: bytes, pos: nat) returns (negative: bool, whole: seq<nat>)
    requires pos < |b| && IntegerEnd(b, pos).Good?
    ensures whole != [] && AreDigits(whole) && (whole[0] == 0 ==> |whole| == 1)
    ensures Span(b, pos, IntegerEnd(b, pos).pos, WholeRaw(negative, whole))
  {
    hide DigitsEnd;
    negative := b[pos] == 45;
    var p := if negative then pos + 1 else pos;
    if b[p] == 48 {
      whole := [0];
      SpanByte(b, p, 48);
      assert DigitText(whole) == [48];
    } else {
      whole := DigitsOnly(b, p);
    }
    var end := IntegerEnd(b, pos).pos;
    hide Span;
    hide DigitText;
    if negative {
      SpanByte(b, pos, 45);
      Join(b, pos, p, end, [45], DigitText(whole));
    } else {
      assert WholeRaw(negative, whole) == DigitText(whole);
    }
  }

  lemma FractionOnly(b: bytes, pos: nat, start: nat) returns (fraction: seq<nat>)
    requires pos <= |b| && FractionEnd(b, pos, start).Good?
    ensures AreDigits(fraction) && Span(b, pos, FractionEnd(b, pos, start).pos, FractionRaw(fraction))
  {
    hide DigitsEnd;
    hide DigitText;
    hide Span;
    if pos < |b| && b[pos] == 46 {
      fraction := DigitsOnly(b, pos + 1);
      SpanByte(b, pos, 46);
      Join(b, pos, pos + 1, DigitsEnd(b, pos + 1), [46], DigitText(fraction));
    } else {
      fraction := [];
      SpanEmpty(b, pos);
    }
  }

  lemma ExponentOnly(b: bytes, pos: nat, start: nat) returns (e: Option<Exponent>)
    requires pos <= |b| && ExponentEnd(b, pos, start).Good?
    ensures (e.Some? ==> ProperExponent(e.value)) && Span(b, pos, ExponentEnd(b, pos, start).pos, ExponentRaw(e))
  {
    hide DigitsEnd;
    hide DigitText;
    hide Span;
    if pos < |b| && (b[pos] == 101 || b[pos] == 69) {
      var signed := pos + 1 < |b| && (b[pos + 1] == 43 || b[pos + 1] == 45);
      var p := if signed then pos + 2 else pos + 1;
      var digits := DigitsOnly(b, p);
      var sign: bytes := if signed then [b[pos + 1]] else [];
      if signed {
        SpanByte(b, pos + 1, b[pos + 1]);
      } else {
        SpanEmpty(b, pos + 1);
      }
      e := Some(Exponent(b[pos], sign, digits));
      SpanByte(b, pos, b[pos]);
      Join(b, pos + 1, p, DigitsEnd(b, p), sign, DigitText(digits));
      Join(b, pos, pos + 1, DigitsEnd(b, p), [b[pos]], sign + DigitText(digits));
    } else {
      e := None;
      SpanEmpty(b, pos);
    }
  }

  lemma NumOnly(b: bytes, pos: nat) returns (n: Num)
    requires pos < |b| && ParseNumber(b, pos).Good?
    ensures var r := ParseNumber(b, pos); ProperNum(n) && Span(b, pos, r.pos, NumRaw(n)) && r.value == NumMeans(n)
  {
    hide IntegerEnd;
    hide FractionEnd;
    hide ExponentEnd;
    hide WholeRaw;
    hide FractionRaw;
    hide ExponentRaw;
    hide Integer;
    hide Span;
    var negative, whole := WholeOnly(b, pos);
    var p := IntegerEnd(b, pos).pos;
    var fraction := FractionOnly(b, p, pos);
    var q := FractionEnd(b, p, pos).pos;
    var e := ExponentOnly(b, q, pos);
    var end := ExponentEnd(b, q, pos).pos;
    n := Num(negative, whole, fraction, e);
    Join(b, p, q, end, FractionRaw(fraction), ExponentRaw(e));
    Join(b, pos, p, end, WholeRaw(negative, whole), FractionRaw(fraction) + ExponentRaw(e));
    PartsProper(b, pos, n, p, end);
  }

  /** The parts of a number that parsed make a proper number. */
  lemma PartsProper(b: bytes, pos: nat, n: Num, p: nat, end: nat)
    requires n.whole != [] && AreDigits(n.whole) && (n.whole[0] == 0 ==> |n.whole| == 1)
    requires AreDigits(n.fraction) && (n.exponent.Some? ==> ProperExponent(n.exponent.value))
    requires pos < |b| && ParseNumber(b, pos).Good? && end == ParseNumber(b, pos).pos
    requires IntegerEnd(b, pos).Good? && IntegerEnd(b, pos).pos == p
    requires Span(b, pos, p, WholeRaw(n.negative, n.whole))
    requires Span(b, pos, end, WholeRaw(n.negative, n.whole) + (FractionRaw(n.fraction) + ExponentRaw(n.exponent)))
    ensures ProperNum(n) && Span(b, pos, end, NumRaw(n)) && ParseNumber(b, pos).value == NumMeans(n)
  {
    hide IntegerEnd;
    hide FractionEnd;
    hide ExponentEnd;
    hide DecimalOf;
    hide DigitText;
    var w, more := WholeRaw(n.negative, n.whole), FractionRaw(n.fraction) + ExponentRaw(n.exponent);
    SpanInside(b, pos, p, w);
    SpanInside(b, pos, end, w + more);
    if IsInteger(n) {
      assert more == [];
      assert w + more == w;
      WholeIs(n.negative, n.whole);
      DecimalOfText(n.whole);
    } else {
      assert more != [];
    }
  }

  // ---------------------------------------------------------------- integers are written

  /** The written integer is a number of the grammar, without a sign for zero. */
  lemma IntWritten(i: int) returns (n: Num)
    requires -I128 <= i < I128
    ensures ProperNum(n) && IsInteger(n) && NumRaw(n) == WriteInt(i) && NumMeans(n) == Int(i)
    ensures n.negative <==> i < 0
  {
    var size := if i < 0 then -i else i;
    var whole := DigitsWritten(size);
    n := Num(i < 0, whole, [], None);
    assert WholeRaw(n.negative, whole) == WriteInt(i);
    assert NumRaw(n) == WholeRaw(n.negative, whole);
  }

  lemma {:induction false} DigitsWritten(size: nat) returns (ds: seq<nat>)
    ensures ds != [] && AreDigits(ds) && DigitText(ds) == Digits(size) && DecimalValue(ds) == size
    ensures ds[0] == 0 ==> size == 0 && |ds| == 1
    decreases size
  {
    if size < 10 {
      ds := [size];
      assert ds[..0] == [];
    } else {
      var front := DigitsWritten(size / 10);
      ds := front + [size % 10];
      assert ds[..|front|] == front;
    }
  }
}
