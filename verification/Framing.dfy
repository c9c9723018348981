/** Wire messages and length-prefixed frames (node/src/net/wire.rs, node/src/net/transport.rs). */
module Framing {
  import opened Bytes
  import opened Wire

  datatype WireMessage =
    | Original(se: SignedEnvelope)
    | Echo(echoer: nat, original: SignedEnvelope, signature: Signature)
  {
    ghost predicate Fits() {
      match this
      case Original(se) => se.Fits()
      case Echo(echoer, original, signature) => echoer < U64 && original.Fits() && signature.Proper()
    }

    function Carried(): SignedEnvelope {
      match this case Original(se) => se case Echo(_, original, _) => original
    }
  }

  function EncodeEcho(echoer: nat, original: SignedEnvelope, signature: Signature): bytes {
    PutU64(echoer) + (EncodeSigned(original) + EncodeSignature(signature))
  }

  function Encode(m: WireMessage): bytes {
    match m
    case Original(se) => [1] + EncodeSigned(se)
    case Echo(echoer, original, signature) => [2] + EncodeEcho(echoer, original, signature)
  }

  function DecodeOriginal(b: bytes): (r: Decoded<WireMessage>)
    ensures r.Took? ==> r.used <= |b|
  {
    match DecodeSigned(b) case Fail => Fail case Took(se, u) => Took(Original(se), u)
  }

  function DecodeEcho(b: bytes): (r: Decoded<WireMessage>)
    ensures r.Took? ==> r.used <= |b|
  {
    match TakeU64(b)
    case Fail => Fail
    case Took(echoer, u) =>
      match DecodeSigned(b[u..])
      case Fail => Fail
      case Took(original, v) =>
        match DecodeSignature(b[u..][v..])
        case Fail => Fail
        case Took(g, w) => Took(Echo(echoer, original, g), u + v + w)
  }

  function Decode(b: bytes): (r: Decoded<WireMessage>)
    ensures r.Took? ==> r.used <= |b|
  {
    if b == [] then Fail
    else
      match (if b[0] == 1 then DecodeOriginal(b[1..]) else if b[0] == 2 then DecodeEcho(b[1..]) else Fail)
      case Fail => Fail
      case Took(m, u) => Took(m, 1 + u)
  }

  lemma EchoRoundTrip(echoer: nat, original: SignedEnvelope, signature: Signature, rest: bytes)
    requires echoer < U64 && original.Fits() && signature.Proper()
    ensures DecodeEcho(EncodeEcho(echoer, original, signature) + rest)
      == Took(Echo(echoer, original, signature), |EncodeEcho(echoer, original, signature)|)
  {
    hide EncodeSigned;
    hide DecodeSigned;
    hide EncodeSignature;
    hide DecodeSignature;
    hide EncodeMessage;
    var e, last := EncodeSigned(original), EncodeSignature(signature) + rest;
    assert EncodeEcho(echoer, original, signature) + rest == PutU64(echoer) + (e + last);
    U64RoundTrip(echoer, e + last);
    assert (PutU64(echoer) + (e + last))[8..] == e + last;
    SignedRoundTrip(original, last);
    assert (e + last)[|e|..] == last;
    SignatureRoundTrip(signature, rest);
  }

  /** Round trip: whatever follows a message on the wire, it decodes to itself and no more. */
  lemma RoundTrip(m: WireMessage, rest: bytes)
    requires m.Fits()
    ensures Decode(Encode(m) + rest) == Took(m, |Encode(m)|)
  {
    hide EncodeSigned;
    hide DecodeSigned;
    hide EncodeEcho;
    hide DecodeEcho;
    hide EncodeMessage;
    var b := Encode(m) + rest;
    match m {
      case Original(se) =>
        assert b[1..] == EncodeSigned(se) + rest;
        SignedRoundTrip(se, rest);
      case Echo(echoer, original, signature) =>
        assert b[1..] == EncodeEcho(echoer, original, signature) + rest;
        EchoRoundTrip(echoer, original, signature, rest);
    }
  }

  lemma EchoCanonical(b: bytes)
    requires DecodeEcho(b).Took?
    ensures var r := DecodeEcho(b);
      r.value.Echo? && r.value.Fits() && b[..r.used] == EncodeEcho(r.value.echoer, r.value.original, r.value.signature)
  {
    hide EncodeSigned;
    hide DecodeSigned;
    hide EncodeSignature;
    hide DecodeSignature;
    hide EncodeMessage;
    var c := b[8..];
    var v := DecodeSigned(c).used;
    U64Canonical(b);
    SignedCanonical(c);
    SignatureCanonical(c[v..]);
    assert DecodeSignature(c[v..]).value.Proper();
    Split(c, v, 64);
    Split(b, 8, v + 64);
  }

  /** Canonicity: what a successful decode consumed is the encoding of what it returned. */
  lemma Canonical(b: bytes)
    requires Decode(b).Took?
    ensures var r := Decode(b); b[..r.used] == Encode(r.value) && r.value.Fits()
  {
    hide EncodeSigned;
    hide DecodeSigned;
    hide EncodeEcho;
    hide DecodeEcho;
    hide EncodeMessage;
    if b[0] == 1 {
      SignedCanonical(b[1..]);
    } else {
      EchoCanonical(b[1..]);
    }
    Split(b, 1, Decode(b).used - 1);
  }

  /** No proper prefix of an encoding decodes: a truncated message is always rejected. */
  lemma NoPrefixDecodes(m: WireMessage, k: nat)
    requires m.Fits() && k < |Encode(m)|
    ensures Decode(Encode(m)[..k]).Fail?
  {
    hide Encode;
    hide Decode;
    hide WireMessage.Fits;
    var b := Encode(m);
    if Decode(b[..k]).Took? {
      var r := Decode(b[..k]);
      Canonical(b[..k]);
      DecodeUsed(b[..k]);
      PrefixSplit(b, k, r.used);
      DecodesTo(b, r.value, b[r.used..]);
      DecodesTo(b, m, []);
    }
  }

  lemma DecodesTo(b: bytes, m: WireMessage, rest: bytes)
    requires m.Fits() && b == Encode(m) + rest
    ensures Decode(b) == Took(m, |Encode(m)|)
  {
    hide Encode;
    hide Decode;
    RoundTrip(m, rest);
  }

  lemma DecodeUsed(b: bytes)
    requires Decode(b).Took?
    ensures Decode(b).used <= |b|
  {
  }

  /** Different messages have different encodings. */
  lemma EncodeInjective(m: WireMessage, n: WireMessage)
    requires m.Fits() && n.Fits() && Encode(m) == Encode(n)
    ensures m == n
  {
    hide Encode;
    hide Decode;
    RoundTrip(m, []);
    RoundTrip(n, []);
  }

  // ---------------------------------------------------------------- frames

  const U32: nat := 0x1_0000_0000

  /** `frame_bytes`: refused when the length does not fit its four bytes. */
  function Frame(m: WireMessage): Option<bytes> {
    if |Encode(m)| >= U32 then None else Some(FrameBytes(m))
  }

  function FrameBytes(m: WireMessage): bytes {
    BigEndian(|Encode(m)|, 4) + Encode(m)
  }

  /** What reading one frame yields: the end of the stream, an error, or a message with its
      length and the unread rest. */
  datatype ReadResult = Eof | Broken | Got(m: WireMessage, len: nat, rest: bytes)

  /** `read_frame` on the bytes the peer will ever send. */
  function ReadFrame(s: bytes, maxFrame: nat): ReadResult {
    if s == [] then Eof
    else if |s| < 4 then Broken
    else
      var len := FromBigEndian(s[..4]);
      if len > maxFrame || 4 + len > |s| then Broken
      else
        match Decode(s[4..4 + len])
        case Fail => Broken
        case Took(m, used) => if used != len then Broken else Got(m, len, s[4 + len..])
  }

  /** What was framed is read back. */
  lemma ReadBack(m: WireMessage, rest: bytes, maxFrame: nat)
    requires CanSend(m, maxFrame)
    ensures ReadFrame(FrameBytes(m) + rest, maxFrame) == Got(m, |Encode(m)|, rest)
  {
    hide Encode;
    hide Decode;
    var e := Encode(m);
    var head := BigEndian(|e|, 4);
    var s := head + e + rest;
    assert FrameBytes(m) + rest == s;
    assert s[..4] == head && s[4..4 + |e|] == e && s[4 + |e|..] == rest;
    WidthIs();
    BigEndianRoundTrip(|e|, 4);
    assert e + [] == e;
    RoundTrip(m, []);
  }

  /** A frame that is accepted was written by `frame_bytes`. */
  lemma ReadCanonical(s: bytes, maxFrame: nat)
    requires ReadFrame(s, maxFrame).Got?
    ensures var r := ReadFrame(s, maxFrame);
      Frame(r.m).Some? && s == FrameBytes(r.m) + r.rest && r.len <= maxFrame && r.m.Fits()
  {
    hide Encode;
    hide Decode;
    hide FromBigEndian;
    hide BigEndian;
    hide WireMessage.Fits;
    var head := s[..4];
    var len := FromBigEndian(head);
    var body := s[4..4 + len];
    Canonical(body);
    assert body[..len] == body;
    FromBigEndianRoundTrip(head);
    WidthIs();
    assert s == head + body + s[4 + len..];
  }

  /** The concatenated frames of the messages. */
  function Stream(ms: seq<WireMessage>): bytes {
    if ms == [] then [] else FrameBytes(ms[0]) + Stream(ms[1..])
  }

  /** The message can be framed, and the reader's cap admits it. */
  ghost predicate CanSend(m: WireMessage, maxFrame: nat) {
    m.Fits() && |Encode(m)| < U32 && |Encode(m)| <= maxFrame
  }

  ghost predicate Sendable(ms: seq<WireMessage>, maxFrame: nat) {
    forall k :: 0 <= k < |ms| ==> CanSend(ms[k], maxFrame)
  }

  lemma {:induction false} StreamSnoc(ms: seq<WireMessage>, m: WireMessage)
    ensures Stream(ms + [m]) == Stream(ms) + FrameBytes(m)
    decreases |ms|
  {
    hide Encode;
    hide FrameBytes;
    if ms == [] {
      assert (ms + [m])[1..] == [];
    } else {
      assert (ms + [m])[1..] == ms[1..] + [m];
      StreamSnoc(ms[1..], m);
    }
  }

  /** The reader loop: messages until the end of the stream or the first bad frame.  What was read
      is exactly what precedes the unread rest. */
  method ReadAll(s: bytes, maxFrame: nat) returns (ms: seq<WireMessage>, rest: bytes)
    ensures Sendable(ms, maxFrame) && s == Stream(ms) + rest
    ensures rest == [] || ReadFrame(rest, maxFrame).Broken?
  {
    hide Encode;
    hide Decode;
    hide ReadFrame;
    hide FrameBytes;
    hide Sendable;
    hide Stream;
    ms, rest := [], s;
    NothingRead(s, maxFrame);
    while true
      invariant ReadSoFar(s, ms, rest, maxFrame)
      decreases |rest|
    {
      var r := ReadFrame(rest, maxFrame);
      ReadStep(rest, maxFrame);
      match r {
        case Eof => return;
        case Broken => return;
        case Got(m, _, tail) =>
          ReadOneMore(s, ms, rest, m, tail, maxFrame);
          ms, rest := ms + [m], tail;
      }
    }
  }

  ghost predicate ReadSoFar(s: bytes, ms: seq<WireMessage>, rest: bytes, maxFrame: nat) {
    Sendable(ms, maxFrame) && s == Stream(ms) + rest
  }

  lemma NothingRead(s: bytes, maxFrame: nat)
    ensures ReadSoFar(s, [], s, maxFrame)
  {
  }

  lemma ReadOneMore(s: bytes, ms: seq<WireMessage>, rest: bytes, m: WireMessage, tail: bytes, maxFrame: nat)
    requires ReadSoFar(s, ms, rest, maxFrame)
    requires CanSend(m, maxFrame) && rest == FrameBytes(m) + tail
    ensures ReadSoFar(s, ms + [m], tail, maxFrame)
  {
    hide Encode;
    hide FrameBytes;
    hide Stream;
    StreamSnoc(ms, m);
    assert Stream(ms) + (FrameBytes(m) + tail) == Stream(ms) + FrameBytes(m) + tail;
  }

  lemma ReadStep(s: bytes, maxFrame: nat)
    ensures var r := ReadFrame(s, maxFrame);
      match r
      case Eof => s == []
      case Broken => true
      case Got(m, len, rest) =>
        CanSend(m, maxFrame) && s == FrameBytes(m) + rest && |rest| < |s|
  {
    hide Encode;
    hide Decode;
    var r := ReadFrame(s, maxFrame);
    if r.Got? {
      ReadCanonical(s, maxFrame);
      var len := FromBigEndian(s[..4]);
      Canonical(s[4..4 + len]);
      assert s[4..4 + len][..len] == s[4..4 + len];
    }
  }

  /** A frame at the front of a stream is the only message that can be read there. */
  lemma SameFront(ms: seq<WireMessage>, a: bytes, sent: seq<WireMessage>, b: bytes, maxFrame: nat)
    requires ms != [] && sent != [] && Sendable(ms, maxFrame) && Sendable(sent, maxFrame)
    requires Stream(ms) + a == Stream(sent) + b
    ensures ms[0] == sent[0] && Stream(ms[1..]) + a == Stream(sent[1..]) + b
    ensures Sendable(ms[1..], maxFrame) && Sendable(sent[1..], maxFrame)
  {
    hide Encode;
    hide Decode;
    hide ReadFrame;
    hide FrameBytes;
    hide Stream;
    hide CanSend;
    StreamCons(ms);
    StreamCons(sent);
    assert FrameBytes(ms[0]) + Stream(ms[1..]) + a == FrameBytes(ms[0]) + (Stream(ms[1..]) + a);
    assert FrameBytes(sent[0]) + Stream(sent[1..]) + b == FrameBytes(sent[0]) + (Stream(sent[1..]) + b);
    ReadBack(ms[0], Stream(ms[1..]) + a, maxFrame);
    ReadBack(sent[0], Stream(sent[1..]) + b, maxFrame);
  }

  /** A stream that starts with a frame is neither at its end nor broken. */
  lemma FrontReads(ms: seq<WireMessage>, a: bytes, maxFrame: nat)
    requires ms != [] && Sendable(ms, maxFrame)
    ensures ReadFrame(Stream(ms) + a, maxFrame).Got? && Stream(ms) + a != []
  {
    hide Encode;
    hide Decode;
    hide FrameBytes;
    hide ReadFrame;
    hide Stream;
    hide CanSend;
    StreamCons(ms);
    EmptyStream(maxFrame);
    assert FrameBytes(ms[0]) + Stream(ms[1..]) + a == FrameBytes(ms[0]) + (Stream(ms[1..]) + a);
    ReadBack(ms[0], Stream(ms[1..]) + a, maxFrame);
  }

  /** A stream of sent frames reads back as the messages sent, in order, with nothing left. */
  lemma {:induction false} ReadsBackInOrder(ms: seq<WireMessage>, rest: bytes, sent: seq<WireMessage>, maxFrame: nat)
    requires Sendable(ms, maxFrame) && Sendable(sent, maxFrame) && Stream(ms) + rest == Stream(sent) + []
    requires rest == [] || ReadFrame(rest, maxFrame).Broken?
    ensures ms == sent && rest == []
    decreases |ms|
  {
    hide Sendable;
    hide ReadFrame;
    hide Stream;
    StreamNone();
    if ms == [] {
      assert Stream(ms) + rest == rest;
      if sent != [] {
        FrontReads(sent, [], maxFrame);
      }
    } else {
      FrontReads(ms, rest, maxFrame);
      if sent != [] {
        SameFront(ms, rest, sent, [], maxFrame);
        ReadsBackInOrder(ms[1..], rest, sent[1..], maxFrame);
        assert ms == [ms[0]] + ms[1..] && sent == [sent[0]] + sent[1..];
      }
    }
  }

  lemma StreamNone()
    ensures Stream([]) == []
  {
  }

  lemma StreamCons(ms: seq<WireMessage>)
    requires ms != []
    ensures Stream(ms) == FrameBytes(ms[0]) + Stream(ms[1..])
  {
    hide Encode;
    hide FrameBytes;
  }

  lemma EmptyStream(maxFrame: nat)
    ensures ReadFrame([], maxFrame).Eof?
  {
  }

  // ---------------------------------------------------------------- size bounds

  const MAX_SID: nat := 128
  const ORIGINAL_OVERHEAD: nat := 128 + MAX_SID
  const ECHO_OVERHEAD: nat := 200 + MAX_SID

  function FamilyMax(n: nat): nat {
    64 + 40 * n
  }

  function PayloadVariantMax(m: DkgMessage, n: nat): nat {
    match m case Commit(_, _) => 64 case Share(_, _, _) => 64 case Reveal(_, _) => FamilyMax(n)
  }

  /** `variant_max`: the cap for this message's own kind. */
  function VariantMax(m: WireMessage, n: nat): nat {
    (match m case Original(_) => ORIGINAL_OVERHEAD case Echo(_, _, _) => ECHO_OVERHEAD)
    + PayloadVariantMax(m.Carried().envelope.payload, n)
  }

  /** `max_frame`: the cap before allocation. */
  function MaxFrame(n: nat): nat {
    if ECHO_OVERHEAD + FamilyMax(n) < U32 then ECHO_OVERHEAD + FamilyMax(n) else U32 - 1
  }

  /** What honest members of a committee of n send. */
  ghost predicate Legitimate(m: WireMessage, n: nat) {
    && m.Fits() && |m.Carried().envelope.sid| <= MAX_SID
    && match m.Carried().envelope.payload
       case Commit(_, _) => true
       case Share(_, _, _) => true
       case Reveal(_, com) => |com| <= n
  }

  /** The caps in bytes. */
  lemma Caps(m: WireMessage, n: nat)
    ensures MaxFrame(n) == if 40 * n + 392 <= 0xffff_ffff then 40 * n + 392 else 0xffff_ffff
    ensures VariantMax(m, n) ==
      (if m.Original? then 256 else 328) + (if m.Carried().envelope.payload.Reveal? then 40 * n + 64 else 64)
  {
  }

  lemma PayloadSize(p: DkgMessage, n: nat)
    requires p.Fits() && (p.Reveal? ==> |p.com| <= n)
    ensures |EncodeMessage(p)| <= PayloadVariantMax(p, n) <= FamilyMax(n)
  {
    if p.Reveal? {
      PointsSize(p.com);
    }
  }

  lemma SignedSize(se: SignedEnvelope)
    ensures |EncodeSigned(se)| <= 99 + |se.envelope.sid| + |EncodeMessage(se.envelope.payload)|
  {
    hide EncodeMessage;
  }

  /** No legitimate message is dropped for its size: it is within its kind's cap, and as long as
      that cap fits a frame length at all, within the reader's. */
  lemma LegitimateFits(m: WireMessage, n: nat)
    requires Legitimate(m, n)
    ensures |Encode(m)| <= VariantMax(m, n) <= ECHO_OVERHEAD + FamilyMax(n)
    ensures |Encode(m)| < U32 ==> |Encode(m)| <= MaxFrame(n)
  {
    hide EncodeMessage;
    hide EncodeSigned;
    var se := m.Carried();
    PayloadSize(se.envelope.payload, n);
    SignedSize(se);
  }
}
