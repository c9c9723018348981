/** The JSON writer and the parser object as they work (demo-evm/src/json.rs): loops that append to
    a buffer, and a cursor with a depth counter.  Each computes the corresponding function. */
module JsonParser {
  import opened Bytes
  import opened Json
  import opened JsonGrammar

  /** `write_str`. */
  method AppendStr(s: bytes, before: bytes) returns (r: bytes)
    ensures r == before + WriteStr(s)
  {
    hide Escaped;
    hide WriteChars;
    var body: bytes := [];
    assert s[..0] == [];
    WriteCharsStep([], 0);
    for i := 0 to |s|
      invariant body == WriteChars(s[..i])
    {
      assert s[..i + 1] == s[..i] + [s[i]];
      WriteCharsStep(s[..i], s[i]);
      body := body + Escaped(s[i]);
    }
    assert s[..|s|] == s;
    r := before + ([QUOTE] + (body + [QUOTE]));
  }

  lemma WriteCharsStep(s: bytes, c: byte)
    ensures WriteChars(s + [c]) == WriteChars(s) + Escaped(c) && WriteChars([]) == []
  {
    hide Escaped;
    WriteCharsAppend(s, [c]);
    assert [c][1..] == [];
    assert WriteChars([c]) == Escaped(c) + WriteChars([]);
  }

  /** `Json::write`. */
  method Append(v: Value, before: bytes) returns (r: bytes)
    ensures r == before + Write(v)
    decreases v, 2
  {
    hide WriteInt;
    hide WriteStr;
    hide WriteItems;
    hide WritePairs;
    match v {
      case Null => r := before + Ascii("null");
      case Bool(b) => r := before + (if b then Ascii("true") else Ascii("false"));
      case Int(i) => r := before + WriteInt(i);
      case Float(text) => r := before + text;
      case Str(s) => r := AppendStr(s, before);
      case Array(items) =>
        var body := AppendItems(items);
        r := before + ([OPEN_BRACKET] + (body + [CLOSE_BRACKET]));
      case Object(pairs) =>
        var body := AppendPairs(pairs);
        r := before + ([OPEN_BRACE] + (body + [CLOSE_BRACE]));
    }
  }

  /** The loop over array items, with its separators. */
  method AppendItems(items: seq<Value>) returns (r: bytes)
    ensures r == WriteItems(items)
    decreases items, 1
  {
    hide Write;
    r := [];
    assert items[..0] == [];
    for i := 0 to |items|
      invariant r == WriteItems(items[..i])
    {
      WriteItemsSnoc(items[..i], items[i]);
      assert items[..i + 1] == items[..i] + [items[i]];
      if i > 0 {
        r := r + [COMMA];
      }
      r := Append(items[i], r);
    }
    assert items[..|items|] == items;
  }

  /** The loop over object pairs. */
  method AppendPairs(pairs: seq<(bytes, Value)>) returns (r: bytes)
    ensures r == WritePairs(pairs)
    decreases pairs, 1
  {
    hide WritePair;
    r := [];
    assert pairs[..0] == [];
    for i := 0 to |pairs|
      invariant r == WritePairs(pairs[..i])
    {
      WritePairsSnoc(pairs[..i], pairs[i]);
      assert pairs[..i + 1] == pairs[..i] + [pairs[i]];
      if i > 0 {
        r := r + [COMMA];
      }
      r := AppendPair(pairs[i], r);
    }
    assert pairs[..|pairs|] == pairs;
  }

  method AppendPair(p: (bytes, Value), before: bytes) returns (r: bytes)
    ensures r == before + WritePair(p)
    decreases p, 3
  {
    r := AppendStr(p.0, before);
    r := r + [COLON];
    r := Append(p.1, r);
  }

  lemma {:induction false} WriteItemsSnoc(items: seq<Value>, v: Value)
    ensures WriteItems(items + [v]) == WriteItems(items) + (if items == [] then [] else [COMMA]) + Write(v)
    decreases |items|
  {
    hide Write;
    if items == [] {
      assert items + [v] == [v];
    } else {
      assert (items + [v])[1..] == items[1..] + [v];
      WriteItemsSnoc(items[1..], v);
    }
  }

  lemma {:induction false} WritePairsSnoc(pairs: seq<(bytes, Value)>, p: (bytes, Value))
    ensures WritePairs(pairs + [p]) == WritePairs(pairs) + (if pairs == [] then [] else [COMMA]) + WritePair(p)
    decreases |pairs|
  {
    hide WritePair;
    if pairs == [] {
      assert pairs + [p] == [p];
    } else {
      assert (pairs + [p])[1..] == pairs[1..] + [p];
      WritePairsSnoc(pairs[1..], p);
    }
  }

  datatype Result<+T> = Ok(value: T) | Err(error: Error)

  /** A method's result and final position are what the function of the start position says. */
  ghost predicate Computes<T>(r: Result<T>, pos: nat, spec: Parsed<T>) {
    match spec case Good(v, p) => r == Ok(v) && pos == p case Bad(e) => r == Err(e)
  }

  class Parser {
    const input: bytes
    var pos: nat
    var depth: nat

    ghost predicate Valid()
      reads this
    {
      pos <= |input| && depth <= MAX_DEPTH
    }

    constructor (text: bytes)
      ensures Valid() && input == text && pos == 0 && depth == 0
    {
      input, pos, depth := text, 0, 0;
    }

    /** `ws`. */
    method Ws()
      requires Valid()
      modifies this`pos
      ensures Valid() && pos == SkipWs(input, old(pos))
    {
      while pos < |input| && IsWs(input[pos])
        invariant pos <= |input| && SkipWs(input, pos) == SkipWs(input, old(pos))
        decreases |input| - pos
      {
        pos := pos + 1;
      }
    }

    /** The digit loops of `number`. */
    method SkipDigits()
      requires Valid()
      modifies this`pos
      ensures Valid() && pos == DigitsEnd(input, old(pos))
    {
      while pos < |input| && IsDigit(input[pos])
        invariant pos <= |input| && DigitsEnd(input, pos) == DigitsEnd(input, old(pos))
        decreases |input| - pos
      {
        pos := pos + 1;
      }
    }

    /** `literal`. */
    method Literal(lit: bytes, value: Value) returns (r: Result<Value>)
      requires Valid()
      modifies this`pos
      ensures Computes(r, pos, ParseLiteral(input, old(pos), lit, value)) && (r.Ok? ==> Valid())
    {
      if |input| - pos >= |lit| && input[pos..pos + |lit|] == lit {
        pos := pos + |lit|;
        r := Ok(value);
      } else {
        r := Err(BadLiteral(pos));
      }
    }

    /** The integer part of `number`. */
    method IntegerPart() returns (r: Result<()>)
      requires Valid() && pos < |input|
      modifies this`pos
      ensures Computes(r, pos, IntegerEnd(input, old(pos)))
    {
      hide DigitsEnd;
      var start := pos;
      if input[pos] == MINUS {
        pos := pos + 1;
      }
      if pos < |input| && input[pos] == 48 {
        pos := pos + 1;
        return if pos < |input| && IsDigit(input[pos]) then Err(BadNumber(start)) else Ok(());
      }
      if pos < |input| && IsDigit(input[pos]) {
        SkipDigits();
        return Ok(());
      }
      return Err(BadNumber(start));
    }

    /** Its optional fraction. */
    method FractionPart(start: nat) returns (r: Result<()>)
      requires Valid()
      modifies this`pos
      ensures Computes(r, pos, FractionEnd(input, old(pos), start))
    {
      hide DigitsEnd;
      if pos < |input| && input[pos] == DOT {
        pos := pos + 1;
        if !(pos < |input| && IsDigit(input[pos])) {
          return Err(BadNumber(start));
        }
        SkipDigits();
      }
      r := Ok(());
    }

    /** Its optional exponent. */
    method ExponentPart(start: nat) returns (r: Result<()>)
      requires Valid()
      modifies this`pos
      ensures Computes(r, pos, ExponentEnd(input, old(pos), start))
    {
      hide DigitsEnd;
      if pos < |input| && (input[pos] == 101 || input[pos] == 69) {
        pos := pos + 1;
        if pos < |input| && (input[pos] == 43 || input[pos] == MINUS) {
          pos := pos + 1;
        }
        if !(pos < |input| && IsDigit(input[pos])) {
          return Err(BadNumber(start));
        }
        SkipDigits();
      }
      r := Ok(());
    }

    /** `number`. */
    method Number() returns (r: Result<Value>)
      requires Valid() && pos < |input|
      modifies this`pos
      ensures Computes(r, pos, ParseNumber(input, old(pos)))
    {
      hide IntOf;
      hide IntegerEnd;
      hide FractionEnd;
      hide ExponentEnd;
      var start := pos;
      var whole := IntegerPart();
      if whole.Err? {
        return Err(whole.error);
      }
      var afterInteger := pos;
      var fraction := FractionPart(start);
      if fraction.Err? {
        return Err(fraction.error);
      }
      var exponent := ExponentPart(start);
      if exponent.Err? {
        return Err(exponent.error);
      }
      var text := input[start..pos];
      if pos > afterInteger {
        return Ok(Float(text));
      }
      var i := IntOf(text);
      r := if -I128 <= i < I128 then Ok(Int(i)) else Err(BadNumber(start));
    }

    /** `hex4`. */
    method FourHex(at: nat) returns (r: Result<nat>)
      requires Valid()
      modifies this`pos
      ensures Computes(r, pos, Hex4(input, old(pos), at)) && (r.Ok? ==> Valid())
    {
      if pos + 4 > |input| {
        return Err(Truncated);
      }
      var v: nat := 0;
      ghost var start := pos;
      for i := 0 to 4
        invariant pos == start + i && HexFold(input, start, i) == Some(v)
      {
        var d := HexValue(input[pos]);
        if d.None? {
          HexFoldFails(input, start, i + 1, 4);
          return Err(BadUnicodeEscape(at));
        }
        pos := pos + 1;
        v := v * 16 + d.value;
      }
      r := Ok(v);
    }

    /** `escape`. */
    method Escape() returns (r: Result<bytes>)
      requires Valid()
      modifies this`pos
      ensures Computes(r, pos, ParseEscape(input, old(pos))) && (r.Ok? ==> Valid())
    {
      hide Hex4;
      var at := pos;
      if pos == |input| {
        return Err(Truncated);
      }
      var c := input[pos];
      pos := pos + 1;
      if c == QUOTE || c == BACKSLASH || c == 47 {
        return Ok([c]);
      } else if c == 98 {
        return Ok([8]);
      } else if c == 102 {
        return Ok([12]);
      } else if c == 110 {
        return Ok([10]);
      } else if c == 114 {
        return Ok([13]);
      } else if c == 116 {
        return Ok([9]);
      } else if c != 117 {
        return Err(BadEscape(at));
      }
      var hi := FourHex(at);
      if hi.Err? {
        return Err(hi.error);
      }
      if 0xd800 <= hi.value < 0xdc00 {
        if pos + 2 > |input| || input[pos] != BACKSLASH || input[pos + 1] != 117 {
          return Err(UnpairedSurrogate(at));
        }
        pos := pos + 2;
        var lo := FourHex(at);
        if lo.Err? {
          return Err(lo.error);
        }
        if 0xdc00 <= lo.value < 0xe000 {
          return Ok(EncodeChar(0x10000 + (hi.value - 0xd800) * 1024 + (lo.value - 0xdc00)));
        }
        return Err(UnpairedSurrogate(at));
      } else if 0xdc00 <= hi.value < 0xe000 {
        return Err(UnpairedSurrogate(at));
      }
      r := Ok(EncodeChar(hi.value));
    }

    /** `string`: from the opening quote. */
    method String() returns (r: Result<bytes>)
      requires Valid() && pos < |input| && input[pos] == QUOTE
      modifies this`pos
      ensures Computes(r, pos, StringFrom(input, old(pos) + 1, []))
    {
      hide ParseEscape;
      hide IsWideChar;
      pos := pos + 1;
      var out: bytes := [];
      while true
        invariant pos <= |input| && StringFrom(input, pos, out) == StringFrom(input, old(pos) + 1, [])
        decreases |input| - pos
      {
        if pos == |input| {
          return Err(Truncated);
        }
        var b := input[pos];
        pos := pos + 1;
        if b == QUOTE {
          return Ok(out);
        } else if b == BACKSLASH {
          var c := Escape();
          if c.Err? {
            return Err(c.error);
          }
          out := out + c.value;
        } else if b < 32 {
          return Err(Unexpected(pos - 1));
        } else if b < 128 {
          out := out + [b];
        } else {
          var len, from := Utf8Len(b), pos - 1;
          if from + len > |input| {
            return Err(Truncated);
          }
          if !IsWideChar(input[from..from + len]) {
            return Err(Unexpected(from));
          }
          out := out + input[from..from + len];
          pos := pos + len - 1;
        }
      }
    }

    /** `value`. */
    method ParseNext() returns (r: Result<Value>)
      requires Valid()
      modifies this
      ensures Computes(r, pos, ParseValue(input, old(pos), old(depth))) && (r.Ok? ==> Valid() && depth == old(depth))
      decreases |input| - pos, 1
    {
      hide StringFrom;
      hide ParseNumber;
      hide ParseItems;
      hide ParsePairs;
      if pos == |input| {
        return Err(Truncated);
      }
      var c := input[pos];
      if c == 110 {
        r := Literal(Ascii("null"), Null);
      } else if c == 116 {
        r := Literal(Ascii("true"), Bool(true));
      } else if c == 102 {
        r := Literal(Ascii("false"), Bool(false));
      } else if c == QUOTE {
        var s := String();
        r := if s.Ok? then Ok(Str(s.value)) else Err(s.error);
      } else if c == MINUS || IsDigit(c) {
        r := Number();
      } else if c == OPEN_BRACKET {
        if depth >= MAX_DEPTH {
          return Err(DepthLimit(pos));
        }
        pos, depth := pos + 1, depth + 1;
        var items := Items();
        if items.Err? {
          return Err(items.error);
        }
        depth := depth - 1;
        r := Ok(Array(items.value));
      } else if c == OPEN_BRACE {
        if depth >= MAX_DEPTH {
          return Err(DepthLimit(pos));
        }
        pos, depth := pos + 1, depth + 1;
        var pairs := Pairs();
        if pairs.Err? {
          return Err(pairs.error);
        }
        depth := depth - 1;
        r := Ok(Object(pairs.value));
      } else {
        r := Err(Unexpected(pos));
      }
    }

    /** `seq`: items up to the closing bracket. */
    method Items() returns (r: Result<seq<Value>>)
      requires Valid()
      modifies this
      ensures Computes(r, pos, ParseItems(input, old(pos), old(depth))) && (r.Ok? ==> Valid() && depth == old(depth))
      decreases |input| - pos, 3
    {
      hide ParseValue;
      hide ItemsFrom;
      var items: seq<Value> := [];
      Ws();
      if pos < |input| && input[pos] == CLOSE_BRACKET {
        pos := pos + 1;
        return Ok(items);
      }
      ghost var start := pos;
      NoItemsYet(input, pos, depth);
      while true
        invariant start <= pos && Valid() && depth == old(depth)
        invariant ItemsFrom(input, start, depth) == ItemsAfter(items, ItemsFrom(input, pos, depth))
        decreases |input| - pos
      {
        ghost var before := pos;
        ItemStep(input, before, depth, items);
        Ws();
        var v := ParseNext();
        if v.Err? {
          return Err(v.error);
        }
        Ws();
        if pos == |input| {
          return Err(Truncated);
        }
        pos := pos + 1;
        items := items + [v.value];
        if input[pos - 1] == CLOSE_BRACKET {
          return Ok(items);
        } else if input[pos - 1] != COMMA {
          return Err(Unexpected(pos - 1));
        }
      }
    }

    /** `object_pairs`: pairs up to the closing brace. */
    method Pairs() returns (r: Result<seq<(bytes, Value)>>)
      requires Valid()
      modifies this
      ensures Computes(r, pos, ParsePairs(input, old(pos), old(depth))) && (r.Ok? ==> Valid() && depth == old(depth))
      decreases |input| - pos, 3
    {
      hide ParseValue;
      hide ParseKey;
      hide ParsePair;
      hide PairsFrom;
      var pairs: seq<(bytes, Value)> := [];
      Ws();
      if pos < |input| && input[pos] == CLOSE_BRACE {
        pos := pos + 1;
        return Ok(pairs);
      }
      ghost var start := pos;
      NoPairsYet(input, pos, depth);
      while true
        invariant start <= pos && Valid() && depth == old(depth)
        invariant PairsFrom(input, start, depth) == PairsAfter(pairs, PairsFrom(input, pos, depth))
        decreases |input| - pos
      {
        ghost var before := pos;
        PairStep(input, before, depth, pairs);
        var pair := Pair();
        if pair.Err? {
          return Err(pair.error);
        }
        Ws();
        if pos == |input| {
          return Err(Truncated);
        }
        pos := pos + 1;
        pairs := pairs + [pair.value];
        if input[pos - 1] == CLOSE_BRACE {
          return Ok(pairs);
        } else if input[pos - 1] != COMMA {
          return Err(Unexpected(pos - 1));
        }
      }
    }

    /** One key and value. */
    method Pair() returns (r: Result<(bytes, Value)>)
      requires Valid()
      modifies this
      ensures Computes(r, pos, ParsePair(input, old(pos), old(depth))) && (r.Ok? ==> Valid() && depth == old(depth))
      decreases |input| - pos, 2
    {
      hide ParseValue;
      hide ParseKey;
      Ws();
      var key := Key();
      if key.Err? {
        return Err(key.error);
      }
      Ws();
      var v := ParseNext();
      if v.Err? {
        return Err(v.error);
      }
      r := Ok((key.value, v.value));
    }

    /** A key and its colon, inside `object_pairs`. */
    method Key() returns (r: Result<bytes>)
      requires Valid()
      modifies this`pos
      ensures Computes(r, pos, ParseKey(input, old(pos))) && (r.Ok? ==> Valid())
    {
      hide StringFrom;
      if pos == |input| {
        return Err(Truncated);
      }
      if input[pos] != QUOTE {
        return Err(Unexpected(pos));
      }
      var key := String();
      if key.Err? {
        return Err(key.error);
      }
      Ws();
      if pos < |input| {
        pos := pos + 1;
        if input[pos - 1] == COLON {
          return Ok(key.value);
        }
      }
      r := if pos < |input| then Err(Unexpected(pos - 1)) else Err(Truncated);
    }
  }

  /** `parse`. */
  method ParseText(text: bytes) returns (r: Result<Value>)
    ensures r == match Parse(text) case Good(v, _) => Ok(v) case Bad(e) => Err(e)
    ensures forall v :: r == Ok(v) <==> Denotes(text, v)
  {
    hide ParseValue;
    hide Denotes;
    forall v
      ensures (Parse(text).Good? && Parse(text).value == v) <==> Denotes(text, v)
    {
      ParseIff(text, v);
    }
    var p := new Parser(text);
    p.Ws();
    r := p.ParseNext();
    if r.Ok? {
      p.Ws();
      if p.pos != |p.input| {
        r := Err(Trailing(p.pos));
      }
    }
  }

  ghost function ItemsAfter(items: seq<Value>, r: Parsed<seq<Value>>): Parsed<seq<Value>> {
    match r case Bad(e) => Bad(e) case Good(rest, w) => Good(items + rest, w)
  }

  lemma NoItemsYet(b: bytes, pos: nat, depth: nat)
    requires pos <= |b| && depth <= MAX_DEPTH
    ensures ItemsFrom(b, pos, depth) == ItemsAfter([], ItemsFrom(b, pos, depth))
  {
    hide ItemsFrom;
    var r := ItemsFrom(b, pos, depth);
    if r.Good? {
      assert [] + r.value == r.value;
    }
  }

  /** One turn of the item loop, seen from everything before it. */
  lemma ItemStep(b: bytes, pos: nat, depth: nat, items: seq<Value>)
    requires pos <= |b| && depth <= MAX_DEPTH
    ensures var v := ParseValue(b, SkipWs(b, pos), depth);
      v.Good? ==>
        var q := SkipWs(b, v.pos);
        ItemsAfter(items, ItemsFrom(b, pos, depth)) ==
          if q == |b| then Bad(Truncated)
          else if b[q] == COMMA then ItemsAfter(items + [v.value], ItemsFrom(b, q + 1, depth))
          else if b[q] == CLOSE_BRACKET then Good(items + [v.value], q + 1)
          else Bad(Unexpected(q))
    ensures ParseValue(b, SkipWs(b, pos), depth).Bad? ==>
      ItemsAfter(items, ItemsFrom(b, pos, depth)) == Bad(ParseValue(b, SkipWs(b, pos), depth).error)
  {
    hide ParseValue;
    var v := ParseValue(b, SkipWs(b, pos), depth);
    if v.Good? {
      var q := SkipWs(b, v.pos);
      if q < |b| && b[q] == COMMA {
        var rest := ItemsFrom(b, q + 1, depth);
        if rest.Good? {
          assert items + ([v.value] + rest.value) == items + [v.value] + rest.value;
        }
      }
    }
  }

  ghost function PairsAfter(pairs: seq<(bytes, Value)>, r: Parsed<seq<(bytes, Value)>>): Parsed<seq<(bytes, Value)>> {
    match r case Bad(e) => Bad(e) case Good(rest, w) => Good(pairs + rest, w)
  }

  lemma NoPairsYet(b: bytes, pos: nat, depth: nat)
    requires pos <= |b| && depth <= MAX_DEPTH
    ensures PairsFrom(b, pos, depth) == PairsAfter([], PairsFrom(b, pos, depth))
  {
    hide PairsFrom;
    var r := PairsFrom(b, pos, depth);
    if r.Good? {
      assert [] + r.value == r.value;
    }
  }

  /** One key and value, from any white space before the key. */
  ghost function ParsePair(b: bytes, pos: nat, depth: nat): (r: Parsed<(bytes, Value)>)
    requires pos <= |b| && depth <= MAX_DEPTH
    ensures r.Good? ==> pos < r.pos <= |b|
  {
    match ParseKey(b, SkipWs(b, pos))
    case Bad(e) => Bad(e)
    case Good(key, k) =>
      match ParseValue(b, SkipWs(b, k), depth)
      case Bad(e) => Bad(e)
      case Good(v, p) => Good((key, v), p)
  }

  /** What one turn of the pair loop amounts to. */
  ghost function PairTurn(b: bytes, pos: nat, depth: nat, pairs: seq<(bytes, Value)>): Parsed<seq<(bytes, Value)>>
    requires pos <= |b| && depth <= MAX_DEPTH
  {
    match ParsePair(b, pos, depth)
    case Bad(e) => Bad(e)
    case Good(x, p) =>
      var q := SkipWs(b, p);
      if q == |b| then Bad(Truncated)
      else if b[q] == COMMA then PairsAfter(pairs + [x], PairsFrom(b, q + 1, depth))
      else if b[q] == CLOSE_BRACE then Good(pairs + [x], q + 1)
      else Bad(Unexpected(q))
  }

  lemma PairStep(b: bytes, pos: nat, depth: nat, pairs: seq<(bytes, Value)>)
    requires pos <= |b| && depth <= MAX_DEPTH
    ensures PairsAfter(pairs, PairsFrom(b, pos, depth)) == PairTurn(b, pos, depth, pairs)
  {
    hide ParseValue;
    hide ParseKey;
    var key := ParseKey(b, SkipWs(b, pos));
    if key.Good? {
      var v := ParseValue(b, SkipWs(b, key.pos), depth);
      if v.Good? {
        var q := SkipWs(b, v.pos);
        if q < |b| && b[q] == COMMA {
          var rest := PairsFrom(b, q + 1, depth);
          if rest.Good? {
            assert pairs + ([(key.value, v.value)] + rest.value) == pairs + [(key.value, v.value)] + rest.value;
          }
        }
      }
    }
  }

  lemma {:induction false} HexFoldFails(b: bytes, pos: nat, k: nat, n: nat)
    requires k <= n && pos + n <= |b| && HexFold(b, pos, k).None?
    ensures HexFold(b, pos, n).None?
    decreases n
  {
    if k < n {
      HexFoldFails(b, pos, k, n - 1);
    }
  }
}
