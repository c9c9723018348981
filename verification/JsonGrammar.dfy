/** JSON texts (RFC 8259) as parse trees that keep every byte, white space included.  The parser of
    demo-evm/src/json.rs accepts exactly the texts of these trees, nested at most 64 deep, with the
    values they denote; the writer emits the text of a tree without white space. */
module JsonGrammar {
  import opened Bytes
  import opened Json
  import opened JsonStrings
  import opened JsonNumbers

  datatype Tree =
    | Nothing
    | Truth(b: bool)
    | Number(n: Num)
    | Text(us: seq<Unit>)
    | List(gap: bytes, items: seq<Item>)
    | Record(gap: bytes, members: seq<Member>)

  /** An array element and the white space around it. */
  datatype Item = Item(before: bytes, value: Tree, after: bytes)

  /** An object member: white space stands around the key and around the value. */
  datatype Member = Member(before: bytes, key: seq<Unit>, gap: bytes, item: Item)

  /** White space is the space, the tabulator, the line feed and the carriage return. */
  ghost predicate IsSpace(c: byte) {
    c == 32 || c == 9 || c == 10 || c == 13
  }

  ghost predicate Spaces(g: bytes) {
    forall k :: 0 <= k < |g| ==> IsSpace(g[k])
  }

  ghost predicate Proper(t: Tree)
    decreases t, 1
  {
    match t
    case Nothing => true
    case Truth(_) => true
    case Number(n) => ProperNum(n)
    case Text(us) => ProperUnits(us)
    case List(gap, items) => Spaces(gap) && ProperItems(items)
    case Record(gap, members) => Spaces(gap) && ProperMembers(members)
  }

  ghost predicate ProperItem(i: Item)
    decreases i, 2
  {
    Spaces(i.before) && Spaces(i.after) && Proper(i.value)
  }

  ghost predicate ProperItems(items: seq<Item>)
    decreases items, 0
  {
    items == [] || (ProperItem(items[0]) && ProperItems(items[1..]))
  }

  ghost predicate ProperMember(m: Member)
    decreases m, 2
  {
    Spaces(m.before) && ProperUnits(m.key) && Spaces(m.gap) && ProperItem(m.item)
  }

  ghost predicate ProperMembers(members: seq<Member>)
    decreases members, 0
  {
    members == [] || (ProperMember(members[0]) && ProperMembers(members[1..]))
  }

  // ---------------------------------------------------------------- the text of a tree

  ghost function Raw(t: Tree): bytes
    requires Proper(t)
    decreases t, 1
  {
    match t
    case Nothing => [110, 117, 108, 108]
    case Truth(b) => if b then [116, 114, 117, 101] else [102, 97, 108, 115, 101]
    case Number(n) => NumRaw(n)
    case Text(us) => Quoted(us)
    case List(gap, items) => [91] + ((if items == [] then gap else ItemsRaw(items)) + [93])
    case Record(gap, members) => [123] + ((if members == [] then gap else MembersRaw(members)) + [125])
  }

  ghost function Quoted(us: seq<Unit>): bytes
    requires ProperUnits(us)
  {
    [34] + (UnitsRaw(us) + [34])
  }

  ghost function ItemRaw(i: Item): bytes
    requires ProperItem(i)
    decreases i, 2
  {
    i.before + (Raw(i.value) + i.after)
  }

  ghost function ItemsRaw(items: seq<Item>): bytes
    requires items != [] && ProperItems(items)
    decreases items, 0
  {
    if |items| == 1 then ItemRaw(items[0]) else ItemRaw(items[0]) + ([44] + ItemsRaw(items[1..]))
  }

  ghost function MemberRaw(m: Member): bytes
    requires ProperMember(m)
    decreases m, 2
  {
    m.before + (Quoted(m.key) + (m.gap + ([58] + ItemRaw(m.item))))
  }

  ghost function MembersRaw(members: seq<Member>): bytes
    requires members != [] && ProperMembers(members)
    decreases members, 0
  {
    if |members| == 1 then MemberRaw(members[0]) else MemberRaw(members[0]) + ([44] + MembersRaw(members[1..]))
  }

  // ---------------------------------------------------------------- its value and its depth

  ghost function Meaning(t: Tree): Value
    requires Proper(t)
    decreases t, 1
  {
    match t
    case Nothing => Null
    case Truth(b) => Bool(b)
    case Number(n) => NumMeans(n)
    case Text(us) => Str(UnitsText(us))
    case List(_, items) => Array(ItemsMeaning(items))
    case Record(_, members) => Object(MembersMeaning(members))
  }

  ghost function ItemMeaning(i: Item): Value
    requires ProperItem(i)
    decreases i, 2
  {
    Meaning(i.value)
  }

  ghost function ItemsMeaning(items: seq<Item>): seq<Value>
    requires ProperItems(items)
    decreases items, 0
  {
    if items == [] then [] else [ItemMeaning(items[0])] + ItemsMeaning(items[1..])
  }

  ghost function MemberMeaning(m: Member): (bytes, Value)
    requires ProperMember(m)
    decreases m, 2
  {
    (UnitsText(m.key), ItemMeaning(m.item))
  }

  /** Members keep their order, repeated keys included. */
  ghost function MembersMeaning(members: seq<Member>): seq<(bytes, Value)>
    requires ProperMembers(members)
    decreases members, 0
  {
    if members == [] then [] else [MemberMeaning(members[0])] + MembersMeaning(members[1..])
  }

  ghost function Max(a: nat, b: nat): nat {
    if a > b then a else b
  }

  /** How deep arrays and objects are nested. */
  ghost function Depth(t: Tree): nat
    decreases t, 1
  {
    match t
    case Nothing => 0
    case Truth(_) => 0
    case Number(_) => 0
    case Text(_) => 0
    case List(_, items) => 1 + ItemsDepth(items)
    case Record(_, members) => 1 + MembersDepth(members)
  }

  ghost function ItemsDepth(items: seq<Item>): nat
    decreases items, 0
  {
    if items == [] then 0 else Max(Depth(items[0].value), ItemsDepth(items[1..]))
  }

  ghost function MembersDepth(members: seq<Member>): nat
    decreases members, 0
  {
    if members == [] then 0 else Max(Depth(members[0].item.value), MembersDepth(members[1..]))
  }

  // ---------------------------------------------------------------- white space

  lemma {:induction false} SpacesSkipped(b: bytes, i: nat, j: nat, gap: bytes)
    requires Spaces(gap) && Span(b, i, j, gap) && (j < |b| ==> !IsSpace(b[j]))
    ensures i <= j <= |b| && SkipWs(b, i) == j
    decreases |gap|
  {
    hide Span;
    SpanInside(b, i, j, gap);
    if gap != [] {
      SpanAt(b, i, j, gap, 0);
      assert gap == [gap[0]] + gap[1..];
      Split(b, i, j, [gap[0]], gap[1..]);
      SpacesSkipped(b, i + 1, j, gap[1..]);
    }
  }

  lemma {:induction false} SkippedSpaces(b: bytes, pos: nat) returns (gap: bytes)
    requires pos <= |b|
    ensures Spaces(gap) && Span(b, pos, SkipWs(b, pos), gap)
    decreases |b| - pos
  {
    hide Span;
    if pos < |b| && IsWs(b[pos]) {
      var more := SkippedSpaces(b, pos + 1);
      gap := [b[pos]] + more;
      SpanByte(b, pos, b[pos]);
      Join(b, pos, pos + 1, SkipWs(b, pos), [b[pos]], more);
    } else {
      gap := [];
      SpanEmpty(b, pos);
    }
  }

  // ---------------------------------------------------------------- every tree is read

  /** What may stand after a value: white space, a comma or a closing bracket. */
  ghost predicate Stops(b: bytes, j: nat) {
    j < |b| ==> IsSpace(b[j]) || b[j] == 44 || b[j] == 93 || b[j] == 125
  }

  /** A value starts with neither white space nor a closing bracket. */
  lemma RawStarts(t: Tree)
    requires Proper(t)
    ensures Raw(t) != [] && !IsSpace(Raw(t)[0]) && Raw(t)[0] != 93
  {
    hide UnitsRaw;
    hide ItemsRaw;
    hide MembersRaw;
    hide ProperItems;
    hide ProperMembers;
    if t.Number? {
      NumStarts(t.n);
    }
  }

  lemma NumStarts(n: Num)
    requires ProperNum(n)
    ensures NumRaw(n) != [] && (NumRaw(n)[0] == 45 || 48 <= NumRaw(n)[0] <= 57)
  {
    hide FractionRaw;
    hide ExponentRaw;
  }

  lemma {:induction false} ValueReads(b: bytes, i: nat, j: nat, depth: nat, t: Tree)
    requires Proper(t) && Span(b, i, j, Raw(t)) && Stops(b, j) && depth + Depth(t) <= 64
    ensures i < j <= |b| && ParseValue(b, i, depth) == Good(Meaning(t), j)
    decreases t, 3
  {
    hide StringFrom;
    hide ParseNumber;
    hide ParseLiteral;
    hide ParseItems;
    hide ParsePairs;
    hide NumRaw;
    hide NumMeans;
    hide Quoted;
    hide UnitsText;
    hide ItemsRaw;
    hide MembersRaw;
    hide Span;
    match t {
      case Nothing => WordReads(b, i, j, [110, 117, 108, 108], Null);
      case Truth(x) =>
        WordReads(b, i, j, if x then [116, 114, 117, 101] else [102, 97, 108, 115, 101], Bool(x));
      case Number(n) => NumReads(b, i, j, n);
      case Text(us) => QuotedReads(b, i, j, us);
      case List(gap, items) =>
        BodyAt(b, i, j, 91, if items == [] then gap else ItemsRaw(items), 93);
        ListReads(b, i + 1, j - 1, depth + 1, gap, items);
      case Record(gap, members) =>
        BodyAt(b, i, j, 123, if members == [] then gap else MembersRaw(members), 125);
        RecordReads(b, i + 1, j - 1, depth + 1, gap, members);
    }
  }

  lemma WordReads(b: bytes, i: nat, j: nat, word: bytes, v: Value)
    requires Span(b, i, j, word) && word != []
    ensures i < j <= |b| && b[i] == word[0] && ParseLiteral(b, i, word, v) == Good(v, j)
    ensures word == [110, 117, 108, 108] ==> word == Ascii("null")
    ensures word == [116, 114, 117, 101] ==> word == Ascii("true")
    ensures word == [102, 97, 108, 115, 101] ==> word == Ascii("false")
  {
    SpanAt(b, i, j, word, 0);
  }

  lemma QuotedReads(b: bytes, i: nat, j: nat, us: seq<Unit>)
    requires ProperUnits(us) && Span(b, i, j, Quoted(us))
    ensures i < j <= |b| && b[i] == 34 && StringFrom(b, i + 1, []) == Good(UnitsText(us), j)
  {
    hide StringFrom;
    hide UnitsRaw;
    hide UnitsText;
    hide ProperUnits;
    hide Span;
    BodyAt(b, i, j, 34, UnitsRaw(us), 34);
    LiteralReads(b, i + 1, j - 1, us, []);
    assert [] + UnitsText(us) == UnitsText(us);
  }

  lemma BodyAt(b: bytes, i: nat, j: nat, open: byte, body: bytes, close: byte)
    requires Span(b, i, j, [open] + (body + [close]))
    ensures i + 1 < j <= |b| && b[i] == open && b[j - 1] == close && Span(b, i + 1, j - 1, body)
  {
    hide Span;
    Split(b, i, j, [open], body + [close]);
    Split(b, i + 1, j, body, [close]);
    SpanByte(b, i, open);
    SpanByte(b, j - 1, close);
  }

  /** After the opening bracket. */
  lemma {:induction false} ListReads(b: bytes, i: nat, j: nat, depth: nat, gap: bytes, items: seq<Item>)
    requires Spaces(gap) && ProperItems(items) && depth + ItemsDepth(items) <= 64
    requires Span(b, i, j, if items == [] then gap else ItemsRaw(items)) && j < |b| && b[j] == 93
    ensures i <= j && ParseItems(b, i, depth) == Good(ItemsMeaning(items), j + 1)
    decreases items, 2
  {
    hide ItemsFrom;
    hide Span;
    if items == [] {
      SpacesSkipped(b, i, j, gap);
    } else {
      ItemsRead(b, i, j, depth, items);
      SkippedTwice(b, i, depth);
    }
  }

  lemma SkippedTwice(b: bytes, pos: nat, depth: nat)
    requires pos <= |b| && depth <= MAX_DEPTH
    ensures ItemsFrom(b, SkipWs(b, pos), depth) == ItemsFrom(b, pos, depth)
    ensures PairsFrom(b, SkipWs(b, pos), depth) == PairsFrom(b, pos, depth)
  {
    hide ParseValue;
    hide ParseKey;
    NoWs(b, SkipWs(b, pos));
  }

  /** The element loop reads v from pos and arrives at q, where a separator stands. */
  ghost predicate ItemParsed(b: bytes, pos: nat, depth: nat, v: Value, q: nat)
    requires pos <= |b| && depth <= MAX_DEPTH
  {
    var p := SkipWs(b, pos);
    var r := ParseValue(b, p, depth);
    p < |b| && b[p] != 93 && r.Good? && r.value == v && SkipWs(b, r.pos) == q
  }

  lemma LastItem(b: bytes, pos: nat, depth: nat, v: Value, q: nat)
    requires pos <= |b| && depth <= MAX_DEPTH && ItemParsed(b, pos, depth, v, q) && q < |b| && b[q] == 93
    ensures ItemsFrom(b, pos, depth) == Good([v], q + 1) && b[SkipWs(b, pos)] != 93 && SkipWs(b, pos) < |b|
  {
    hide ParseValue;
    hide SkipWs;
  }

  lemma OneMoreItem(b: bytes, pos: nat, depth: nat, v: Value, q: nat, vs: seq<Value>, end: nat)
    requires pos <= |b| && depth <= MAX_DEPTH && ItemParsed(b, pos, depth, v, q) && q < |b| && b[q] == 44
    requires ItemsFrom(b, q + 1, depth) == Good(vs, end)
    ensures ItemsFrom(b, pos, depth) == Good([v] + vs, end) && SkipWs(b, pos) < |b| && b[SkipWs(b, pos)] != 93
  {
    hide ParseValue;
    hide SkipWs;
  }

  /** One element and its white space, up to the comma or bracket after it. */
  lemma {:induction false} ItemReads(b: bytes, i: nat, j: nat, depth: nat, x: Item)
    requires ProperItem(x) && depth + Depth(x.value) <= 64 && Span(b, i, j, ItemRaw(x))
    requires j < |b| && (b[j] == 44 || b[j] == 93 || b[j] == 125)
    ensures i <= j && ItemParsed(b, i, depth, ItemMeaning(x), j)
    decreases x, 4
  {
    hide ParseValue;
    hide SkipWs;
    hide Raw;
    hide Meaning;
    hide Spaces;
    hide Proper;
    hide Span;
    var p := i + |x.before|;
    var q := p + |Raw(x.value)|;
    Split(b, i, j, x.before, Raw(x.value) + x.after);
    Split(b, p, j, Raw(x.value), x.after);
    RawStarts(x.value);
    SpanAt(b, p, q, Raw(x.value), 0);
    SpacesSkipped(b, i, p, x.before);
    SpacesSkipped(b, q, j, x.after);
    SpacesStop(b, q, j, x.after);
    ValueReads(b, p, q, depth, x.value);
  }

  lemma SpacesStop(b: bytes, i: nat, j: nat, gap: bytes)
    requires Spaces(gap) && Span(b, i, j, gap) && Stops(b, j)
    ensures Stops(b, i)
  {
    hide Span;
    SpanInside(b, i, j, gap);
    if gap != [] {
      SpanAt(b, i, j, gap, 0);
    }
  }

  lemma {:induction false} ItemsRead(b: bytes, i: nat, j: nat, depth: nat, items: seq<Item>)
    requires items != [] && ProperItems(items) && depth + ItemsDepth(items) <= 64
    requires Span(b, i, j, ItemsRaw(items)) && j < |b| && b[j] == 93
    ensures i <= j && ItemsFrom(b, i, depth) == Good(ItemsMeaning(items), j + 1)
    ensures SkipWs(b, i) < |b| && b[SkipWs(b, i)] != 93
    decreases items, 1
  {
    hide ItemParsed;
    hide ItemsFrom;
    hide SkipWs;
    hide ItemRaw;
    hide Depth;
    hide ItemMeaning;
    hide ProperItem;
    hide Span;
    var x := items[0];
    if |items| == 1 {
      ItemReads(b, i, j, depth, x);
      assert ItemsMeaning(items) == [ItemMeaning(x)] by { assert items[1..] == []; }
      LastItem(b, i, depth, ItemMeaning(x), j);
    } else {
      var q := i + |ItemRaw(x)|;
      Split(b, i, j, ItemRaw(x), [44] + ItemsRaw(items[1..]));
      Marked(b, q, j, 44, ItemsRaw(items[1..]));
      ItemReads(b, i, q, depth, x);
      ItemsRead(b, q + 1, j, depth, items[1..]);
      OneMoreItem(b, i, depth, ItemMeaning(x), q, ItemsMeaning(items[1..]), j + 1);
    }
  }

  lemma {:induction false} RecordReads(b: bytes, i: nat, j: nat, depth: nat, gap: bytes, members: seq<Member>)
    requires Spaces(gap) && ProperMembers(members) && depth + MembersDepth(members) <= 64
    requires Span(b, i, j, if members == [] then gap else MembersRaw(members)) && j < |b| && b[j] == 125
    ensures i <= j && ParsePairs(b, i, depth) == Good(MembersMeaning(members), j + 1)
    decreases members, 2
  {
    hide PairsFrom;
    hide Span;
    if members == [] {
      SpacesSkipped(b, i, j, gap);
    } else {
      MembersRead(b, i, j, depth, members);
      SkippedTwice(b, i, depth);
    }
  }

  /** A key, from the white space before it to its colon. */
  lemma KeyReads(b: bytes, i: nat, j: nat, before: bytes, key: seq<Unit>, gap: bytes)
    requires Spaces(before) && ProperUnits(key) && Spaces(gap)
    requires Span(b, i, j, before + (Quoted(key) + gap)) && j < |b| && b[j] == 58
    ensures i <= j && SkipWs(b, i) < |b| && b[SkipWs(b, i)] == 34
    ensures ParseKey(b, SkipWs(b, i)) == Good(UnitsText(key), j + 1)
  {
    hide StringFrom;
    hide ParseKey;
    hide SkipWs;
    hide Quoted;
    hide UnitsText;
    hide ProperUnits;
    hide Spaces;
    hide Span;
    var p := i + |before|;
    var q := p + |Quoted(key)|;
    Split(b, i, j, before, Quoted(key) + gap);
    Split(b, p, j, Quoted(key), gap);
    QuotedReads(b, p, q, key);
    SpacesSkipped(b, i, p, before);
    SpacesSkipped(b, q, j, gap);
    KeyParsed(b, p, UnitsText(key), q, j);
  }

  lemma KeyParsed(b: bytes, p: nat, key: bytes, q: nat, colon: nat)
    requires p < |b| && b[p] == 34 && StringFrom(b, p + 1, []) == Good(key, q)
    requires q <= |b| && SkipWs(b, q) == colon && colon < |b| && b[colon] == 58
    ensures ParseKey(b, p) == Good(key, colon + 1)
  {
    hide StringFrom;
    hide SkipWs;
  }

  /** The member loop reads x from pos and arrives at q, where a separator stands. */
  ghost predicate MemberParsed(b: bytes, pos: nat, depth: nat, x: (bytes, Value), q: nat)
    requires pos <= |b| && depth <= MAX_DEPTH
  {
    var p := SkipWs(b, pos);
    var k := ParseKey(b, p);
    p < |b| && b[p] != 125 && k.Good? && k.value == x.0 && ItemParsed(b, k.pos, depth, x.1, q)
  }

  lemma LastMember(b: bytes, pos: nat, depth: nat, x: (bytes, Value), q: nat)
    requires pos <= |b| && depth <= MAX_DEPTH && MemberParsed(b, pos, depth, x, q) && q < |b| && b[q] == 125
    ensures PairsFrom(b, pos, depth) == Good([x], q + 1) && SkipWs(b, pos) < |b| && b[SkipWs(b, pos)] != 125
  {
    hide ParseValue;
    hide ParseKey;
    hide SkipWs;
    assert x == (x.0, x.1);
  }

  lemma OneMoreMember(b: bytes, pos: nat, depth: nat, x: (bytes, Value), q: nat, xs: seq<(bytes, Value)>, end: nat)
    requires pos <= |b| && depth <= MAX_DEPTH && MemberParsed(b, pos, depth, x, q) && q < |b| && b[q] == 44
    requires PairsFrom(b, q + 1, depth) == Good(xs, end)
    ensures PairsFrom(b, pos, depth) == Good([x] + xs, end) && SkipWs(b, pos) < |b| && b[SkipWs(b, pos)] != 125
  {
    hide ParseValue;
    hide ParseKey;
    hide SkipWs;
    assert x == (x.0, x.1);
  }

  lemma {:induction false} MemberReads(b: bytes, i: nat, j: nat, depth: nat, m: Member)
    requires ProperMember(m) && depth + Depth(m.item.value) <= 64 && Span(b, i, j, MemberRaw(m))
    requires j < |b| && (b[j] == 44 || b[j] == 125)
    ensures i <= j && MemberParsed(b, i, depth, MemberMeaning(m), j)
    decreases m, 4
  {
    hide ItemParsed;
    hide ParseKey;
    hide SkipWs;
    hide ItemRaw;
    hide Quoted;
    hide UnitsText;
    hide ItemMeaning;
    hide Span;
    var head := m.before + (Quoted(m.key) + m.gap);
    var k := i + |head|;
    assert MemberRaw(m) == head + ([58] + ItemRaw(m.item));
    Split(b, i, j, head, [58] + ItemRaw(m.item));
    Marked(b, k, j, 58, ItemRaw(m.item));
    KeyReads(b, i, k, m.before, m.key, m.gap);
    ItemReads(b, k + 1, j, depth, m.item);
  }

  lemma {:induction false} MembersRead(b: bytes, i: nat, j: nat, depth: nat, members: seq<Member>)
    requires members != [] && ProperMembers(members) && depth + MembersDepth(members) <= 64
    requires Span(b, i, j, MembersRaw(members)) && j < |b| && b[j] == 125
    ensures i <= j && PairsFrom(b, i, depth) == Good(MembersMeaning(members), j + 1)
    ensures SkipWs(b, i) < |b| && b[SkipWs(b, i)] != 125
    decreases members, 1
  {
    hide MemberParsed;
    hide PairsFrom;
    hide SkipWs;
    hide MemberRaw;
    hide Depth;
    hide MemberMeaning;
    hide ProperMember;
    hide Span;
    var m := members[0];
    if |members| == 1 {
      MemberReads(b, i, j, depth, m);
      assert MembersMeaning(members) == [MemberMeaning(m)] by { assert members[1..] == []; }
      LastMember(b, i, depth, MemberMeaning(m), j);
    } else {
      var q := i + |MemberRaw(m)|;
      Split(b, i, j, MemberRaw(m), [44] + MembersRaw(members[1..]));
      Marked(b, q, j, 44, MembersRaw(members[1..]));
      MemberReads(b, i, q, depth, m);
      MembersRead(b, q + 1, j, depth, members[1..]);
      OneMoreMember(b, i, depth, MemberMeaning(m), q, MembersMeaning(members[1..]), j + 1);
    }
  }

  // ---------------------------------------------------------------- only trees are read

  lemma {:induction false} ValueOnly(b: bytes, pos: nat, depth: nat) returns (t: Tree)
    requires pos <= |b| && depth <= MAX_DEPTH && ParseValue(b, pos, depth).Good?
    ensures var r := ParseValue(b, pos, depth);
      Proper(t) && depth + Depth(t) <= 64 && Span(b, pos, r.pos, Raw(t)) && Meaning(t) == r.value
    decreases |b| - pos, 0
  {
    hide StringFrom;
    hide ParseNumber;
    hide ParseLiteral;
    hide ParseItems;
    hide ParsePairs;
    hide NumRaw;
    hide NumMeans;
    hide UnitsRaw;
    hide UnitsText;
    hide ItemsRaw;
    hide MembersRaw;
    hide Span;
    hide ProperNum;
    hide ProperUnits;
    hide Spaces;
    var c := b[pos];
    if c == 110 {
      t := Nothing;
      WordOnly(b, pos, Ascii("null"), Null);
      assert Ascii("null") == Raw(t);
    } else if c == 116 {
      t := Truth(true);
      WordOnly(b, pos, Ascii("true"), Bool(true));
      assert Ascii("true") == Raw(t);
    } else if c == 102 {
      t := Truth(false);
      WordOnly(b, pos, Ascii("false"), Bool(false));
      assert Ascii("false") == Raw(t);
    } else if c == 34 {
      var us := QuotedOnly(b, pos);
      t := Text(us);
    } else if c == 45 || IsDigit(c) {
      var n := NumOnly(b, pos);
      t := Number(n);
    } else if c == 91 {
      var gap, items := ListOnly(b, pos + 1, depth + 1);
      t := List(gap, items);
      Enclosed(b, pos, ParseItems(b, pos + 1, depth + 1).pos, 91, if items == [] then gap else ItemsRaw(items), 93);
    } else {
      var gap, members := RecordOnly(b, pos + 1, depth + 1);
      t := Record(gap, members);
      Enclosed(b, pos, ParsePairs(b, pos + 1, depth + 1).pos, 123,
               if members == [] then gap else MembersRaw(members), 125);
    }
  }

  lemma WordOnly(b: bytes, pos: nat, word: bytes, v: Value)
    requires ParseLiteral(b, pos, word, v).Good?
    ensures ParseLiteral(b, pos, word, v).value == v && Span(b, pos, ParseLiteral(b, pos, word, v).pos, word)
  {
  }

  lemma Enclosed(b: bytes, i: nat, j: nat, open: byte, body: bytes, close: byte)
    requires i < |b| && b[i] == open && 0 < j <= |b| && b[j - 1] == close && Span(b, i + 1, j - 1, body)
    ensures Span(b, i, j, [open] + (body + [close]))
  {
    hide Span;
    SpanByte(b, i, open);
    SpanByte(b, j - 1, close);
    Join(b, i + 1, j - 1, j, body, [close]);
    Join(b, i, i + 1, j, [open], body + [close]);
  }

  lemma QuotedOnly(b: bytes, pos: nat) returns (us: seq<Unit>)
    requires pos < |b| && b[pos] == 34 && StringFrom(b, pos + 1, []).Good?
    ensures var r := StringFrom(b, pos + 1, []);
      ProperUnits(us) && UnitsText(us) == r.value && Span(b, pos, r.pos, Quoted(us))
  {
    hide StringFrom;
    hide UnitsRaw;
    hide UnitsText;
    hide ProperUnits;
    hide Span;
    us := LiteralOnly(b, pos + 1, []);
    assert [] + UnitsText(us) == UnitsText(us);
    Enclosed(b, pos, StringFrom(b, pos + 1, []).pos, 34, UnitsRaw(us), 34);
  }

  lemma {:induction false} ListOnly(b: bytes, pos: nat, depth: nat) returns (gap: bytes, items: seq<Item>)
    requires pos <= |b| && depth <= MAX_DEPTH && ParseItems(b, pos, depth).Good?
    ensures var r := ParseItems(b, pos, depth);
      && Spaces(gap) && ProperItems(items) && depth + ItemsDepth(items) <= 64 && ItemsMeaning(items) == r.value
      && Span(b, pos, r.pos - 1, if items == [] then gap else ItemsRaw(items)) && b[r.pos - 1] == 93
    decreases |b| - pos, 3
  {
    hide ItemsFrom;
    hide Span;
    var p := SkipWs(b, pos);
    gap := [];
    if p < |b| && b[p] == 93 {
      gap := SkippedSpaces(b, pos);
      items := [];
    } else {
      SkippedTwice(b, pos, depth);
      items := ItemsOnly(b, pos, depth);
    }
  }

  /** One element of the loop, if it succeeds. */
  lemma {:induction false} ItemOnly(b: bytes, pos: nat, depth: nat) returns (x: Item)
    requires pos <= |b| && depth <= MAX_DEPTH && ParseValue(b, SkipWs(b, pos), depth).Good?
    ensures var r := ParseValue(b, SkipWs(b, pos), depth);
      && ProperItem(x) && depth + Depth(x.value) <= 64 && ItemMeaning(x) == r.value
      && Span(b, pos, SkipWs(b, r.pos), ItemRaw(x))
    decreases |b| - pos, 1
  {
    hide ParseValue;
    hide SkipWs;
    hide Raw;
    hide Meaning;
    hide Spaces;
    hide Span;
    var p := SkipWs(b, pos);
    var q := ParseValue(b, p, depth).pos;
    var before := SkippedSpaces(b, pos);
    var t := ValueOnly(b, p, depth);
    var after := SkippedSpaces(b, q);
    x := Item(before, t, after);
    Join(b, p, q, SkipWs(b, q), Raw(t), after);
    Join(b, pos, p, SkipWs(b, q), before, Raw(t) + after);
  }

  /** What a successful element loop has read first. */
  lemma ItemsStep(b: bytes, pos: nat, depth: nat) returns (q: nat)
    requires pos <= |b| && depth <= MAX_DEPTH && ItemsFrom(b, pos, depth).Good?
    ensures var r := ParseValue(b, SkipWs(b, pos), depth);
      && r.Good? && q == SkipWs(b, r.pos) && pos < q < |b|
      && (b[q] == 93 ==> ItemsFrom(b, pos, depth) == Good([r.value], q + 1))
      && (b[q] != 93 ==> b[q] == 44 && ItemsFrom(b, q + 1, depth).Good?
                         && ItemsFrom(b, pos, depth).value == [r.value] + ItemsFrom(b, q + 1, depth).value
                         && ItemsFrom(b, pos, depth).pos == ItemsFrom(b, q + 1, depth).pos)
  {
    hide ParseValue;
    hide SkipWs;
    q := SkipWs(b, ParseValue(b, SkipWs(b, pos), depth).pos);
  }

  lemma {:induction false} ItemsOnly(b: bytes, pos: nat, depth: nat) returns (items: seq<Item>)
    requires pos <= |b| && depth <= MAX_DEPTH && ItemsFrom(b, pos, depth).Good?
    ensures var r := ItemsFrom(b, pos, depth);
      && items != [] && ProperItems(items) && depth + ItemsDepth(items) <= 64 && ItemsMeaning(items) == r.value
      && Span(b, pos, r.pos - 1, ItemsRaw(items)) && b[r.pos - 1] == 93
    decreases |b| - pos, 2
  {
    hide ParseValue;
    hide SkipWs;
    hide ItemsFrom;
    hide ItemRaw;
    hide ItemMeaning;
    hide ProperItem;
    hide Depth;
    hide Span;
    var q := ItemsStep(b, pos, depth);
    var x := ItemOnly(b, pos, depth);
    if b[q] == 93 {
      items := [x];
      OneItem(x);
    } else {
      var more := ItemsOnly(b, q + 1, depth);
      items := [x] + more;
      MoreItems(x, more);
      var end := ItemsFrom(b, q + 1, depth).pos - 1;
      SpanByte(b, q, 44);
      Join(b, q, q + 1, end, [44], ItemsRaw(more));
      Join(b, pos, q, end, ItemRaw(x), [44] + ItemsRaw(more));
    }
  }

  lemma OneItem(x: Item)
    requires ProperItem(x)
    ensures ProperItems([x]) && ItemsRaw([x]) == ItemRaw(x) && ItemsMeaning([x]) == [ItemMeaning(x)]
    ensures ItemsDepth([x]) == Depth(x.value)
  {
    hide ProperItem;
    hide ItemRaw;
    hide ItemMeaning;
    hide Depth;
    assert [x][1..] == [];
  }

  lemma MoreItems(x: Item, more: seq<Item>)
    requires ProperItem(x) && ProperItems(more) && more != []
    ensures ProperItems([x] + more) && ItemsRaw([x] + more) == ItemRaw(x) + ([44] + ItemsRaw(more))
    ensures ItemsMeaning([x] + more) == [ItemMeaning(x)] + ItemsMeaning(more)
    ensures ItemsDepth([x] + more) == Max(Depth(x.value), ItemsDepth(more))
  {
    hide ProperItem;
    hide ItemRaw;
    hide ItemMeaning;
    hide Depth;
    assert ([x] + more)[1..] == more;
  }

  lemma {:induction false} RecordOnly(b: bytes, pos: nat, depth: nat) returns (gap: bytes, members: seq<Member>)
    requires pos <= |b| && depth <= MAX_DEPTH && ParsePairs(b, pos, depth).Good?
    ensures var r := ParsePairs(b, pos, depth);
      && Spaces(gap) && ProperMembers(members) && depth + MembersDepth(members) <= 64
      && MembersMeaning(members) == r.value
      && Span(b, pos, r.pos - 1, if members == [] then gap else MembersRaw(members)) && b[r.pos - 1] == 125
    decreases |b| - pos, 5
  {
    hide PairsFrom;
    hide Span;
    var p := SkipWs(b, pos);
    gap := [];
    if p < |b| && b[p] == 125 {
      gap := SkippedSpaces(b, pos);
      members := [];
    } else {
      SkippedTwice(b, pos, depth);
      members := MembersOnly(b, pos, depth);
    }
  }

  /** A key, from the white space before it to its colon. */
  lemma KeyOnly(b: bytes, pos: nat) returns (before: bytes, key: seq<Unit>, gap: bytes)
    requires pos <= |b| && ParseKey(b, SkipWs(b, pos)).Good?
    ensures var r := ParseKey(b, SkipWs(b, pos));
      && Spaces(before) && ProperUnits(key) && Spaces(gap) && UnitsText(key) == r.value
      && Span(b, pos, r.pos - 1, before + (Quoted(key) + gap)) && b[r.pos - 1] == 58
  {
    hide StringFrom;
    hide SkipWs;
    hide Quoted;
    hide UnitsText;
    hide ProperUnits;
    hide Spaces;
    hide Span;
    var p := SkipWs(b, pos);
    var q := StringFrom(b, p + 1, []).pos;
    before := SkippedSpaces(b, pos);
    key := QuotedOnly(b, p);
    gap := SkippedSpaces(b, q);
    Join(b, p, q, SkipWs(b, q), Quoted(key), gap);
    Join(b, pos, p, SkipWs(b, q), before, Quoted(key) + gap);
  }

  lemma {:induction false} MemberOnly(b: bytes, pos: nat, depth: nat) returns (m: Member)
    requires pos <= |b| && depth <= MAX_DEPTH && ParseKey(b, SkipWs(b, pos)).Good?
    requires ParseValue(b, SkipWs(b, ParseKey(b, SkipWs(b, pos)).pos), depth).Good?
    ensures var k := ParseKey(b, SkipWs(b, pos));
      var r := ParseValue(b, SkipWs(b, k.pos), depth);
      && ProperMember(m) && depth + Depth(m.item.value) <= 64 && MemberMeaning(m) == (k.value, r.value)
      && Span(b, pos, SkipWs(b, r.pos), MemberRaw(m))
    decreases |b| - pos, 3
  {
    hide ParseValue;
    hide ParseKey;
    hide SkipWs;
    hide ItemRaw;
    hide ItemMeaning;
    hide Quoted;
    hide UnitsText;
    hide ProperUnits;
    hide ProperItem;
    hide Spaces;
    hide Span;
    hide Depth;
    var before, key, gap := KeyOnly(b, pos);
    var k := ParseKey(b, SkipWs(b, pos)).pos;
    var x := ItemOnly(b, k, depth);
    m := Member(before, key, gap, x);
    var q := SkipWs(b, ParseValue(b, SkipWs(b, k), depth).pos);
    var head := before + (Quoted(key) + gap);
    SpanByte(b, k - 1, 58);
    Join(b, k - 1, k, q, [58], ItemRaw(x));
    Join(b, pos, k - 1, q, head, [58] + ItemRaw(x));
    assert MemberRaw(m) == head + ([58] + ItemRaw(x));
  }

  /** What a successful member loop has read first. */
  lemma MembersStep(b: bytes, pos: nat, depth: nat) returns (q: nat)
    requires pos <= |b| && depth <= MAX_DEPTH && PairsFrom(b, pos, depth).Good?
    ensures var k := ParseKey(b, SkipWs(b, pos));
      && k.Good?
      && var r := ParseValue(b, SkipWs(b, k.pos), depth);
      && r.Good? && q == SkipWs(b, r.pos) && pos < q < |b|
      && (b[q] == 125 ==> PairsFrom(b, pos, depth) == Good([(k.value, r.value)], q + 1))
      && (b[q] != 125 ==> b[q] == 44 && PairsFrom(b, q + 1, depth).Good?
                          && PairsFrom(b, pos, depth).value == [(k.value, r.value)] + PairsFrom(b, q + 1, depth).value
                          && PairsFrom(b, pos, depth).pos == PairsFrom(b, q + 1, depth).pos)
  {
    hide ParseValue;
    hide ParseKey;
    hide SkipWs;
    q := SkipWs(b, ParseValue(b, SkipWs(b, ParseKey(b, SkipWs(b, pos)).pos), depth).pos);
  }

  lemma {:induction false} MembersOnly(b: bytes, pos: nat, depth: nat) returns (members: seq<Member>)
    requires pos <= |b| && depth <= MAX_DEPTH && PairsFrom(b, pos, depth).Good?
    ensures var r := PairsFrom(b, pos, depth);
      && members != [] && ProperMembers(members) && depth + MembersDepth(members) <= 64
      && MembersMeaning(members) == r.value && Span(b, pos, r.pos - 1, MembersRaw(members)) && b[r.pos - 1] == 125
    decreases |b| - pos, 4
  {
    hide ParseValue;
    hide ParseKey;
    hide PairsFrom;
    hide SkipWs;
    hide MemberRaw;
    hide MemberMeaning;
    hide ProperMember;
    hide Depth;
    hide Span;
    var q := MembersStep(b, pos, depth);
    var m := MemberOnly(b, pos, depth);
    if b[q] == 125 {
      members := [m];
      OneMember(m);
    } else {
      var more := MembersOnly(b, q + 1, depth);
      members := [m] + more;
      MoreMembers(m, more);
      var end := PairsFrom(b, q + 1, depth).pos - 1;
      SpanByte(b, q, 44);
      Join(b, q, q + 1, end, [44], MembersRaw(more));
      Join(b, pos, q, end, MemberRaw(m), [44] + MembersRaw(more));
    }
  }

  lemma OneMember(m: Member)
    requires ProperMember(m)
    ensures ProperMembers([m]) && MembersRaw([m]) == MemberRaw(m) && MembersMeaning([m]) == [MemberMeaning(m)]
    ensures MembersDepth([m]) == Depth(m.item.value)
  {
    hide ProperMember;
    hide MemberRaw;
    hide MemberMeaning;
    hide Depth;
    assert [m][1..] == [];
  }

  lemma MoreMembers(m: Member, more: seq<Member>)
    requires ProperMember(m) && ProperMembers(more) && more != []
    ensures ProperMembers([m] + more) && MembersRaw([m] + more) == MemberRaw(m) + ([44] + MembersRaw(more))
    ensures MembersMeaning([m] + more) == [MemberMeaning(m)] + MembersMeaning(more)
    ensures MembersDepth([m] + more) == Max(Depth(m.item.value), MembersDepth(more))
  {
    hide ProperMember;
    hide MemberRaw;
    hide MemberMeaning;
    hide Depth;
    assert ([m] + more)[1..] == more;
  }

  // ---------------------------------------------------------------- whole texts

  /** The text is that of a tree, nested at most 64 deep, between white space. */
  ghost predicate Spells(b: bytes, t: Tree, v: Value) {
    && Proper(t) && Depth(t) <= 64 && Meaning(t) == v
    && exists lead, trail :: Spaces(lead) && Spaces(trail) && b == lead + (Raw(t) + trail)
  }

  ghost predicate Denotes(b: bytes, v: Value) {
    exists t :: Spells(b, t, v)
  }

  lemma TreeParses(b: bytes, t: Tree, v: Value)
    requires Spells(b, t, v)
    ensures Parse(b) == Good(v, |b|)
  {
    hide ParseValue;
    hide SkipWs;
    hide Raw;
    hide Meaning;
    hide Proper;
    hide Depth;
    hide Spaces;
    hide Stops;
    var lead, trail :| Spaces(lead) && Spaces(trail) && b == lead + (Raw(t) + trail);
    WholeSpan(b);
    hide Span;
    var p := |lead|;
    var q := p + |Raw(t)|;
    Split(b, 0, |b|, lead, Raw(t) + trail);
    Split(b, p, |b|, Raw(t), trail);
    RawStarts(t);
    SpanAt(b, p, q, Raw(t), 0);
    SpacesSkipped(b, 0, p, lead);
    SpacesSkipped(b, q, |b|, trail);
    EndStops(b);
    SpacesStop(b, q, |b|, trail);
    ValueReads(b, p, q, 0, t);
  }

  lemma WholeSpan(b: bytes)
    ensures forall x :: Span(b, 0, |b|, x) <==> b == x
  {
    assert b[0..|b|] == b;
  }

  lemma EndStops(b: bytes)
    ensures Stops(b, |b|)
  {
  }

  lemma ParsedTree(b: bytes) returns (t: Tree)
    requires Parse(b).Good?
    ensures Spells(b, t, Parse(b).value)
  {
    hide ParseValue;
    hide SkipWs;
    hide Raw;
    hide Meaning;
    hide Proper;
    hide Depth;
    hide Spaces;
    WholeSpan(b);
    hide Span;
    var p := SkipWs(b, 0);
    var q := ParseValue(b, p, 0).pos;
    var lead := SkippedSpaces(b, 0);
    t := ValueOnly(b, p, 0);
    var trail := SkippedSpaces(b, q);
    Join(b, p, q, |b|, Raw(t), trail);
    Join(b, 0, p, |b|, lead, Raw(t) + trail);
  }

  /** The parser and the grammar agree: a text is accepted, with a value, exactly when it spells a
      tree that denotes it. */
  lemma ParseIff(b: bytes, v: Value)
    ensures (Parse(b).Good? && Parse(b).value == v) <==> Denotes(b, v)
    ensures Parse(b).Good? ==> Parse(b).pos == |b|
  {
    hide Spells;
    if Parse(b).Good? {
      var t := ParsedTree(b);
    }
    if t :| Spells(b, t, v) {
      TreeParses(b, t, v);
    }
  }

  // ---------------------------------------------------------------- the writer

  /** The form the writer emits: no white space, tidy literals, plain integers. */
  ghost predicate Compact(t: Tree)
    decreases t, 1
  {
    match t
    case Nothing => true
    case Truth(_) => true
    case Number(n) => IsInteger(n) && (n.negative ==> Integer(n) < 0)
    case Text(us) => AllTidy(us)
    case List(gap, items) => gap == [] && CompactItems(items)
    case Record(gap, members) => gap == [] && CompactMembers(members)
  }

  ghost predicate CompactItem(i: Item)
    decreases i, 2
  {
    i.before == [] && i.after == [] && Compact(i.value)
  }

  ghost predicate CompactItems(items: seq<Item>)
    decreases items, 0
  {
    items == [] || (CompactItem(items[0]) && CompactItems(items[1..]))
  }

  ghost predicate CompactMember(m: Member)
    decreases m, 2
  {
    m.before == [] && m.gap == [] && AllTidy(m.key) && CompactItem(m.item)
  }

  ghost predicate CompactMembers(members: seq<Member>)
    decreases members, 0
  {
    members == [] || (CompactMember(members[0]) && CompactMembers(members[1..]))
  }

  /** Every writable value is written as the text of a compact tree that denotes it. */
  lemma {:induction false} ValueWritten(v: Value) returns (t: Tree)
    requires Writable(v)
    ensures Proper(t) && Compact(t) && Raw(t) == Write(v) && Meaning(t) == v && Depth(t) == Height(v)
    decreases v, 1
  {
    hide WriteInt;
    hide WriteChars;
    hide NumRaw;
    hide NumMeans;
    hide ProperNum;
    hide Integer;
    hide IsUtf8;
    hide WriteItems;
    hide WritePairs;
    match v {
      case Null => t := Nothing;
      case Bool(b) => t := Truth(b);
      case Int(i) =>
        var n := IntWritten(i);
        t := Number(n);
        assert NumMeans(n) == Int(Integer(n)) by { NumMeansInteger(n); }
      case Str(s) =>
        var us := StringWritten(s);
        t := Text(us);
      case Array(items) =>
        var written := ItemsWritten(items);
        t := List([], written);
        assert items == [] ==> WriteItems(items) == [] by { EmptyWritten(); }
      case Object(pairs) =>
        var written := PairsWritten(pairs);
        t := Record([], written);
        assert pairs == [] ==> WritePairs(pairs) == [] by { EmptyWritten(); }
    }
  }

  lemma NumMeansInteger(n: Num)
    requires ProperNum(n) && IsInteger(n)
    ensures NumMeans(n) == Int(Integer(n))
  {
  }

  lemma EmptyWritten()
    ensures WriteItems([]) == [] && WritePairs([]) == []
  {
  }

  lemma {:induction false} ItemsWritten(vs: seq<Value>) returns (items: seq<Item>)
    requires ItemsWritable(vs)
    ensures ProperItems(items) && CompactItems(items) && (items == [] <==> vs == [])
    ensures items != [] ==> ItemsRaw(items) == WriteItems(vs)
    ensures ItemsMeaning(items) == vs && ItemsDepth(items) == ItemsHeight(vs)
    decreases vs, 0
  {
    hide Write;
    hide Raw;
    hide Meaning;
    hide Proper;
    hide Compact;
    hide Depth;
    hide Height;
    hide Writable;
    if vs == [] {
      items := [];
    } else {
      var t := ValueWritten(vs[0]);
      var more := ItemsWritten(vs[1..]);
      var i := Item([], t, []);
      items := [i] + more;
      assert items[1..] == more && vs == [vs[0]] + vs[1..];
      assert [] + (Raw(t) + []) == Raw(t);
      assert ItemRaw(i) == Write(vs[0]);
    }
  }

  lemma {:induction false} PairsWritten(ps: seq<(bytes, Value)>) returns (members: seq<Member>)
    requires PairsWritable(ps)
    ensures ProperMembers(members) && CompactMembers(members) && (members == [] <==> ps == [])
    ensures members != [] ==> MembersRaw(members) == WritePairs(ps)
    ensures MembersMeaning(members) == ps && MembersDepth(members) == PairsHeight(ps)
    decreases ps, 0
  {
    hide WritePair;
    hide MemberRaw;
    hide MemberMeaning;
    hide ProperMember;
    hide CompactMember;
    hide Depth;
    hide PairHeight;
    hide PairWritable;
    if ps == [] {
      members := [];
    } else {
      var m := PairWritten(ps[0]);
      var more := PairsWritten(ps[1..]);
      members := [m] + more;
      assert members[1..] == more && ps == [ps[0]] + ps[1..];
    }
  }

  lemma {:induction false} PairWritten(p: (bytes, Value)) returns (m: Member)
    requires PairWritable(p)
    ensures ProperMember(m) && CompactMember(m) && MemberRaw(m) == WritePair(p) && MemberMeaning(m) == p
    ensures Depth(m.item.value) == PairHeight(p)
    decreases p, 2
  {
    hide Write;
    hide WriteChars;
    hide Raw;
    hide Meaning;
    hide Proper;
    hide Compact;
    hide Depth;
    hide Height;
    hide Writable;
    hide IsUtf8;
    hide ProperUnits;
    hide UnitsText;
    hide UnitsRaw;
    hide AllTidy;
    var key := StringWritten(p.0);
    var t := ValueWritten(p.1);
    m := Member([], key, [], Item([], t, []));
    assert [] + (Raw(t) + []) == Raw(t);
    assert Quoted(key) == WriteStr(p.0);
    assert MemberRaw(m) == Quoted(key) + ([58] + Raw(t));
  }

  /** Parsing undoes writing: every float-free value with 128-bit integers and proper strings,
      nested at most 64 deep, reads back as itself, with any white space around it. */
  lemma ParseWritten(v: Value, lead: bytes, trail: bytes)
    requires Writable(v) && Height(v) <= 64 && Spaces(lead) && Spaces(trail)
    ensures var b := lead + (Write(v) + trail); Parse(b) == Good(v, |b|)
  {
    hide Parse;
    hide Write;
    hide Writable;
    hide Height;
    hide Proper;
    hide Raw;
    hide Meaning;
    hide Depth;
    hide Spaces;
    var t := ValueWritten(v);
    TreeParses(lead + (Write(v) + trail), t, v);
  }

  // ---------------------------------------------------------------- white space does not matter

  /** The tree without its white space. */
  ghost function Bare(t: Tree): Tree
    decreases t, 1
  {
    match t
    case List(_, items) => List([], BareItems(items))
    case Record(_, members) => Record([], BareMembers(members))
    case _ => t
  }

  ghost function BareItem(i: Item): Item
    decreases i, 2
  {
    Item([], Bare(i.value), [])
  }

  ghost function BareItems(items: seq<Item>): seq<Item>
    decreases items, 0
  {
    if items == [] then [] else [BareItem(items[0])] + BareItems(items[1..])
  }

  ghost function BareMember(m: Member): Member
    decreases m, 3
  {
    Member([], m.key, [], BareItem(m.item))
  }

  ghost function BareMembers(members: seq<Member>): seq<Member>
    decreases members, 0
  {
    if members == [] then [] else [BareMember(members[0])] + BareMembers(members[1..])
  }

  lemma {:induction false} BareSame(t: Tree)
    requires Proper(t)
    ensures Proper(Bare(t)) && Meaning(Bare(t)) == Meaning(t) && Depth(Bare(t)) == Depth(t)
    decreases t, 1
  {
    match t {
      case List(_, items) => BareItemsSame(items);
      case Record(_, members) => BareMembersSame(members);
      case _ =>
    }
  }

  lemma {:induction false} BareItemSame(i: Item)
    requires ProperItem(i)
    ensures ProperItem(BareItem(i)) && ItemMeaning(BareItem(i)) == ItemMeaning(i)
    ensures Depth(BareItem(i).value) == Depth(i.value)
    decreases i, 2
  {
    hide Proper;
    hide Meaning;
    hide Depth;
    BareSame(i.value);
  }

  lemma {:induction false} BareItemsSame(items: seq<Item>)
    requires ProperItems(items)
    ensures ProperItems(BareItems(items)) && ItemsMeaning(BareItems(items)) == ItemsMeaning(items)
    ensures ItemsDepth(BareItems(items)) == ItemsDepth(items)
    decreases items, 0
  {
    hide ProperItem;
    hide ItemMeaning;
    hide BareItem;
    hide Depth;
    if items != [] {
      BareItemSame(items[0]);
      BareItemsSame(items[1..]);
      var bare := BareItems(items);
      assert bare[0] == BareItem(items[0]) && bare[1..] == BareItems(items[1..]);
    }
  }

  lemma {:induction false} BareMembersSame(members: seq<Member>)
    requires ProperMembers(members)
    ensures ProperMembers(BareMembers(members)) && MembersMeaning(BareMembers(members)) == MembersMeaning(members)
    ensures MembersDepth(BareMembers(members)) == MembersDepth(members)
    decreases members, 0
  {
    hide ProperItem;
    hide ItemMeaning;
    hide BareItem;
    hide UnitsText;
    hide Depth;
    if members != [] {
      BareItemSame(members[0].item);
      BareMembersSame(members[1..]);
      var bare := BareMembers(members);
      assert bare[0] == BareMember(members[0]) && bare[1..] == BareMembers(members[1..]);
    }
  }

  /** White space between the tokens of a written text changes nothing: any text whose tree is
      written v once its white space is removed reads back as v. */
  lemma SpacingIgnored(v: Value, t: Tree, lead: bytes, trail: bytes)
    requires Writable(v) && Height(v) <= 64 && Proper(t) && Depth(t) <= 64 && Spaces(lead) && Spaces(trail)
    requires Proper(Bare(t)) && Raw(Bare(t)) == Write(v)
    ensures var b := lead + (Raw(t) + trail); Parse(b) == Good(v, |b|)
  {
    hide Parse;
    hide Write;
    hide Writable;
    hide Height;
    hide Proper;
    hide Raw;
    hide Meaning;
    hide Depth;
    hide Bare;
    hide Spaces;
    BareSame(t);
    NoSpaces();
    var w := [] + (Write(v) + []);
    TreeParses(w, Bare(t), Meaning(t));
    ParseWritten(v, [], []);
    TreeParses(lead + (Raw(t) + trail), t, Meaning(t));
  }

  lemma NoSpaces()
    ensures Spaces([])
  {
  }

  /** The module's own description has fractions rejected; they are read, as floats. */
  lemma FractionAccepted()
    ensures var text: bytes := [49, 46, 53]; Parse(text) == Good(Float(text), 3)
  {
    hide Parse;
    var n := Num(false, [1], [5], None);
    var text: bytes := [49, 46, 53];
    assert DigitText([1]) == [49] && DigitText([5]) == [53];
    assert NumRaw(n) == text;
    assert Raw(Number(n)) == text;
    NoSpaces();
    assert text == [] + (Raw(Number(n)) + []);
    TreeParses(text, Number(n), Float(text));
  }

  /** Which numbers become integers: exactly those without fraction and exponent. */
  lemma IntegerIff(b: bytes, n: Num)
    requires ProperNum(n) && b == NumRaw(n)
    ensures Parse(b).Good? && (Parse(b).value.Int? <==> IsInteger(n)) && (Parse(b).value.Float? <==> !IsInteger(n))
  {
    hide Parse;
    hide ProperNum;
    hide NumRaw;
    NoSpaces();
    assert b == [] + (Raw(Number(n)) + []);
    TreeParses(b, Number(n), NumMeans(n));
  }
}
