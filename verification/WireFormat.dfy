/** The byte format of everything that travels between nodes, as lists of fields that are read off
    the bytes without the codec (the core's encodings and node/src/net/wire.rs).  Every encoder is
    proved to lay out its fields, so whatever a decoder accepts is in this format too. */
module WireFormat {
  import opened Field
  import opened Polynomials
  import opened Bytes
  import opened Wire
  import opened Framing

  /** One byte, a four- or eight-byte number, a scalar, given bytes, or the characters of a tag. */
  datatype Piece = U8(n: nat) | Half(n: nat) | Word(n: nat) | Residue(s: Scalar) | Raw(b: bytes) | Letters(text: string)

  ghost function Size(f: Piece): nat {
    match f
    case U8(_) => 1
    case Half(_) => 4
    case Word(_) => 8
    case Residue(_) => 32
    case Raw(b) => |b|
    case Letters(text) => |text|
  }

  /** The number that four bytes stand for. */
  ghost function Four(b: bytes, i: nat): nat
    requires i + 4 <= |b|
  {
    b[i] as nat * 0x1000000 + b[i + 1] as nat * 0x10000 + b[i + 2] as nat * 0x100 + b[i + 3] as nat
  }

  ghost predicate Holds(b: bytes, f: Piece) {
    && |b| == Size(f)
    && match f
       case U8(n) => b[0] as nat == n
       case Half(n) => Four(b, 0) == n
       case Word(n) => Four(b, 0) * 0x1_0000_0000 + Four(b, 4) == n
       case Residue(s) => FromBigEndian(b) == s
       case Raw(x) => b == x
       case Letters(text) => forall k :: 0 <= k < |text| ==> b[k] as int == text[k] as int
  }

  /** The bytes are these fields, one after another, and nothing else. */
  ghost predicate Laid(b: bytes, fs: seq<Piece>) {
    if fs == [] then b == []
    else
      var n := Size(fs[0]);
      n <= |b| && Holds(b[..n], fs[0]) && Laid(b[n..], fs[1..])
  }

  ghost function TotalSize(fs: seq<Piece>): nat {
    if fs == [] then 0 else Size(fs[0]) + TotalSize(fs[1..])
  }

  // ---------------------------------------------------------------- the format

  ghost function MessageFields(m: DkgMessage): seq<Piece> {
    match m
    case Commit(from, hash) => [U8(1), Word(from), Word(|hash|), Raw(hash)]
    case Reveal(from, com) => [U8(2), Word(from), Word(|com|)] + PointFields(com)
    case Share(from, to, share) => [U8(3), Word(from), Word(to), Residue(share)]
  }

  ghost function PointFields(ps: seq<Scalar>): seq<Piece> {
    seq(|ps|, k requires 0 <= k < |ps| => Raw(CompressedPoint(ps[k])))
  }

  ghost function PhaseNumber(p: Phase): nat {
    match p
    case KeyGen => 1
    case TriplesPhase => 2
    case PresignPhase => 3
    case SignPhase => 4
    case RefreshPhase => 5
  }

  ghost function AddresseeFields(to: Option<nat>): seq<Piece> {
    match to case None => [U8(0)] case Some(j) => [U8(1), Word(j)]
  }

  ghost function EnvelopeFields(e: Envelope): seq<Piece> {
    var payload := MessageFields(e.payload);
    [Word(|e.sid|), Raw(e.sid), U8(PhaseNumber(e.phase)), U8(e.round as nat), Word(e.from)]
    + AddresseeFields(e.to) + ([Word(TotalSize(payload))] + payload)
  }

  ghost function SignatureFields(g: Signature): seq<Piece> {
    [Residue(g.r), Residue(g.s)]
  }

  ghost function SignedFields(se: SignedEnvelope): seq<Piece> {
    EnvelopeFields(se.envelope) + SignatureFields(se.signature)
  }

  ghost function WireFields(m: WireMessage): seq<Piece> {
    match m
    case Original(se) => [U8(1)] + SignedFields(se)
    case Echo(echoer, original, signature) =>
      [U8(2), Word(echoer)] + SignedFields(original) + SignatureFields(signature)
  }

  // ---------------------------------------------------------------- composing

  lemma LaidStep(b: bytes, f: Piece, c: bytes, gs: seq<Piece>)
    requires Holds(b, f) && Laid(c, gs)
    ensures Laid(b + c, [f] + gs)
  {
    SizeIs(b, f);
    hide Holds;
    hide Size;
    assert ([f] + gs)[1..] == gs;
    assert (b + c)[..|b|] == b && (b + c)[|b|..] == c;
  }

  lemma SizeIs(b: bytes, f: Piece)
    requires Holds(b, f)
    ensures |b| == Size(f)
  {
  }

  lemma {:induction false} LaidAppend(b: bytes, fs: seq<Piece>, c: bytes, gs: seq<Piece>)
    requires Laid(b, fs) && Laid(c, gs)
    ensures Laid(b + c, fs + gs)
    decreases |fs|
  {
    hide Holds;
    hide Size;
    if fs == [] {
      assert b + c == c && fs + gs == gs;
    } else {
      var n := Size(fs[0]);
      var x, y := b[..n], b[n..];
      LaidAppend(y, fs[1..], c, gs);
      hide Laid;
      LaidStep(x, fs[0], y + c, fs[1..] + gs);
      assert b + c == x + (y + c);
      assert fs + gs == [fs[0]] + (fs[1..] + gs);
    }
  }

  lemma {:induction false} LaidSize(b: bytes, fs: seq<Piece>)
    requires Laid(b, fs)
    ensures |b| == TotalSize(fs)
    decreases |fs|
  {
    hide Holds;
    if fs != [] {
      LaidSize(b[Size(fs[0])..], fs[1..]);
    }
  }

  lemma LaidOne(b: bytes, f: Piece)
    requires Holds(b, f)
    ensures Laid(b, [f])
  {
    assert b[..|b|] == b && b[|b|..] == [];
  }

  lemma FromBigEndianStep(b: bytes, k: nat)
    requires k < |b|
    ensures FromBigEndian(b[..k + 1]) == FromBigEndian(b[..k]) * 256 + b[k]
  {
    assert b[..k + 1][..k] == b[..k];
  }

  lemma FourBytes(b: bytes)
    requires |b| >= 4
    ensures FromBigEndian(b[..4]) == Four(b, 0)
  {
    FromBigEndianStep(b, 0);
    FromBigEndianStep(b, 1);
    FromBigEndianStep(b, 2);
    FromBigEndianStep(b, 3);
  }

  lemma EightBytes(b: bytes)
    requires |b| == 8
    ensures FromBigEndian(b) == Four(b, 0) * 0x1_0000_0000 + Four(b, 4)
  {
    FourBytes(b);
    FromBigEndianStep(b, 4);
    FromBigEndianStep(b, 5);
    FromBigEndianStep(b, 6);
    FromBigEndianStep(b, 7);
    assert b[..8] == b;
  }

  lemma WordLaid(n: nat)
    requires n < U64
    ensures Laid(PutU64(n), [Word(n)])
  {
    WidthIs();
    BigEndianRoundTrip(n, 8);
    EightBytes(PutU64(n));
    LaidOne(PutU64(n), Word(n));
  }

  lemma ScalarLaid(s: Scalar)
    ensures Laid(PutScalar(s), [Residue(s)])
  {
    ScalarFits(s);
    BigEndianRoundTrip(s, 32);
    LaidOne(PutScalar(s), Residue(s));
  }

  lemma ByteLaid(c: byte)
    ensures Laid([c], [U8(c as nat)])
  {
    LaidOne([c], U8(c as nat));
  }

  lemma BytesLaid(s: bytes)
    requires |s| < U64
    ensures Laid(PutBytes(s), [Word(|s|), Raw(s)])
  {
    hide Laid;
    WordLaid(|s|);
    LaidOne(s, Raw(s));
    LaidAppend(PutU64(|s|), [Word(|s|)], s, [Raw(s)]);
    assert [Word(|s|)] + [Raw(s)] == [Word(|s|), Raw(s)];
  }

  lemma {:induction false} PointsLaid(ps: seq<Scalar>)
    ensures Laid(Points(ps), PointFields(ps))
    decreases |ps|
  {
    hide Laid;
    if ps == [] {
      NothingLaid();
    } else {
      var c := CompressedPoint(ps[0]);
      LaidOne(c, Raw(c));
      PointsLaid(ps[1..]);
      LaidAppend(c, [Raw(c)], Points(ps[1..]), PointFields(ps[1..]));
      assert PointFields(ps) == [Raw(c)] + PointFields(ps[1..]);
    }
  }

  lemma NothingLaid()
    ensures Laid([], []) && Points([]) == []
  {
  }

  // ---------------------------------------------------------------- the encoders

  /** A kind byte, the sender, and the rest. */
  lemma TaggedLaid(tag: byte, from: nat, rest: bytes, fields: seq<Piece>)
    requires from < U64 && Laid(rest, fields)
    ensures Laid([tag] + (PutU64(from) + rest), [U8(tag as nat), Word(from)] + fields)
  {
    hide Laid;
    hide PutU64;
    ByteLaid(tag);
    WordLaid(from);
    LaidAppend(PutU64(from), [Word(from)], rest, fields);
    LaidAppend([tag], [U8(tag as nat)], PutU64(from) + rest, [Word(from)] + fields);
    assert [U8(tag as nat)] + ([Word(from)] + fields) == [U8(tag as nat), Word(from)] + fields;
  }

  lemma MessageLaid(m: DkgMessage)
    requires m.Fits()
    ensures Laid(EncodeMessage(m), MessageFields(m))
  {
    hide Laid;
    hide PutU64;
    match m {
      case Commit(from, hash) =>
        BytesLaid(hash);
        TaggedLaid(1, from, PutBytes(hash), [Word(|hash|), Raw(hash)]);
        assert MessageFields(m) == [U8(1), Word(from)] + [Word(|hash|), Raw(hash)];
      case Reveal(from, com) => RevealLaid(from, com);
      case Share(from, to, share) => ShareLaid(from, to, share);
    }
  }

  lemma RevealLaid(from: nat, com: Poly)
    requires from < U64 && |com| < U64
    ensures Laid(EncodeMessage(Reveal(from, com)), MessageFields(Reveal(from, com)))
  {
    hide Laid;
    hide PutU64;
    hide Points;
    hide PointFields;
    WordLaid(|com|);
    PointsLaid(com);
    LaidAppend(PutU64(|com|), [Word(|com|)], Points(com), PointFields(com));
    TaggedLaid(2, from, EncodeCommitment(com), [Word(|com|)] + PointFields(com));
    assert [U8(2), Word(from)] + ([Word(|com|)] + PointFields(com)) ==
      [U8(2), Word(from), Word(|com|)] + PointFields(com);
  }

  lemma ShareLaid(from: nat, to: nat, share: Scalar)
    requires from < U64 && to < U64
    ensures Laid(EncodeMessage(Share(from, to, share)), MessageFields(Share(from, to, share)))
  {
    hide Laid;
    hide PutU64;
    hide PutScalar;
    WordLaid(to);
    ScalarLaid(share);
    LaidAppend(PutU64(to), [Word(to)], PutScalar(share), [Residue(share)]);
    TaggedLaid(3, from, PutU64(to) + PutScalar(share), [Word(to)] + [Residue(share)]);
    assert [U8(3), Word(from)] + ([Word(to)] + [Residue(share)]) ==
      [U8(3), Word(from), Word(to), Residue(share)];
  }

  lemma HeadLaid(h: Head)
    requires |h.sid| < U64 && h.from < U64
    ensures Laid(EncodeHead(h),
                 [Word(|h.sid|), Raw(h.sid), U8(PhaseNumber(h.phase)), U8(h.round as nat), Word(h.from)])
  {
    hide Laid;
    hide PutBytes;
    hide PutU64;
    BytesLaid(h.sid);
    ByteLaid(PhaseCode(h.phase));
    ByteLaid(h.round);
    WordLaid(h.from);
    var p, r: bytes := [PhaseCode(h.phase)], [h.round];
    var fp, fr, ff := [U8(PhaseNumber(h.phase))], [U8(h.round as nat)], [Word(h.from)];
    LaidAppend(r, fr, PutU64(h.from), ff);
    LaidAppend(p, fp, r + PutU64(h.from), fr + ff);
    LaidAppend(PutBytes(h.sid), [Word(|h.sid|), Raw(h.sid)], p + (r + PutU64(h.from)), fp + (fr + ff));
    assert EncodeHead(h) == PutBytes(h.sid) + (p + (r + PutU64(h.from)));
    assert [Word(|h.sid|), Raw(h.sid)] + (fp + (fr + ff)) ==
      [Word(|h.sid|), Raw(h.sid), U8(PhaseNumber(h.phase)), U8(h.round as nat), Word(h.from)];
  }

  lemma AddresseeLaid(to: Option<nat>)
    requires to.Some? ==> to.value < U64
    ensures Laid(EncodeTo(to), AddresseeFields(to))
  {
    hide Laid;
    match to {
      case None => ByteLaid(0);
      case Some(j) =>
        ByteLaid(1);
        WordLaid(j);
        LaidAppend([1], [U8(1)], PutU64(j), [Word(j)]);
        assert [U8(1)] + [Word(j)] == [U8(1), Word(j)];
    }
  }

  /** Session, phase, round, sender, addressee and the length-prefixed payload. */
  lemma EnvelopeLaid(e: Envelope)
    requires e.Fits()
    ensures Laid(EncodeEnvelope(e), EnvelopeFields(e))
  {
    hide Laid;
    hide EncodeHead;
    hide EncodeMessage;
    hide MessageFields;
    hide PutU64;
    var h, p, fields := Head(e.sid, e.phase, e.round, e.from), EncodeMessage(e.payload), MessageFields(e.payload);
    HeadLaid(h);
    AddresseeLaid(e.to);
    MessageLaid(e.payload);
    LaidSize(p, fields);
    WordLaid(|p|);
    LaidAppend(PutU64(|p|), [Word(|p|)], p, fields);
    LaidAppend(EncodeTo(e.to), AddresseeFields(e.to), PutBytes(p), [Word(|p|)] + fields);
    var head := [Word(|e.sid|), Raw(e.sid), U8(PhaseNumber(e.phase)), U8(e.round as nat), Word(e.from)];
    LaidAppend(EncodeHead(h), head, EncodeTo(e.to) + PutBytes(p), AddresseeFields(e.to) + ([Word(|p|)] + fields));
    assert EnvelopeFields(e) == head + (AddresseeFields(e.to) + ([Word(|p|)] + fields));
  }

  lemma SignatureLaid(g: Signature)
    ensures Laid(EncodeSignature(g), SignatureFields(g))
  {
    hide Laid;
    ScalarLaid(g.r);
    ScalarLaid(g.s);
    LaidAppend(PutScalar(g.r), [Residue(g.r)], PutScalar(g.s), [Residue(g.s)]);
    assert [Residue(g.r)] + [Residue(g.s)] == SignatureFields(g);
  }

  lemma SignedLaid(se: SignedEnvelope)
    requires se.Fits()
    ensures Laid(EncodeSigned(se), SignedFields(se))
  {
    hide Laid;
    EnvelopeLaid(se.envelope);
    SignatureLaid(se.signature);
    LaidAppend(EncodeEnvelope(se.envelope), EnvelopeFields(se.envelope), EncodeSignature(se.signature),
               SignatureFields(se.signature));
  }

  /** Every wire message is encoded in its format, and whatever decodes is in the format of the
      message it decodes to. */
  lemma MessageFormat(m: WireMessage)
    requires m.Fits()
    ensures Laid(Encode(m), WireFields(m))
  {
    hide Laid;
    hide EncodeSigned;
    hide EncodeSignature;
    hide SignedFields;
    hide PutU64;
    match m {
      case Original(se) =>
        SignedLaid(se);
        ByteLaid(1);
        LaidAppend([1], [U8(1)], EncodeSigned(se), SignedFields(se));
      case Echo(e, original, g) =>
        SignedLaid(original);
        SignatureLaid(g);
        WordLaid(e);
        ByteLaid(2);
        LaidAppend(EncodeSigned(original), SignedFields(original), EncodeSignature(g), SignatureFields(g));
        var s, fs := EncodeSigned(original) + EncodeSignature(g), SignedFields(original) + SignatureFields(g);
        LaidAppend(PutU64(e), [Word(e)], s, fs);
        LaidAppend([2], [U8(2)], PutU64(e) + s, [Word(e)] + fs);
        assert WireFields(m) == [U8(2)] + ([Word(e)] + fs);
    }
  }

  lemma DecodedFormat(b: bytes)
    requires Decode(b).Took?
    ensures Laid(b[..Decode(b).used], WireFields(Decode(b).value))
  {
    hide Laid;
    hide Encode;
    hide Decode;
    hide WireFields;
    Canonical(b);
    MessageFormat(Decode(b).value);
  }

  /** A frame is the length in four bytes, most significant first, and the message. */
  lemma FrameFormat(m: WireMessage)
    requires m.Fits() && Frame(m).Some?
    ensures Laid(Frame(m).value, [Half(TotalSize(WireFields(m)))] + WireFields(m))
  {
    hide Laid;
    hide Encode;
    hide WireFields;
    var b := Encode(m);
    MessageFormat(m);
    LaidSize(b, WireFields(m));
    WidthIs();
    BigEndianRoundTrip(|b|, 4);
    var len := BigEndian(|b|, 4);
    FourBytes(len);
    assert len[..4] == len;
    LaidOne(len, Half(|b|));
    LaidAppend(len, [Half(|b|)], b, WireFields(m));
  }

  const SIGN_TEXT: string := "OHM-ECDSA/v0.1/transport-sign"
  const ECHO_TEXT: string := "OHM-ECDSA-NODE/v0.1/echo"

  lemma TagTexts()
    ensures TRANSPORT_SIGN == Ascii(SIGN_TEXT) && IsAscii(SIGN_TEXT)
    ensures ECHO_TAG == Ascii(ECHO_TEXT) && IsAscii(ECHO_TEXT)
  {
  }

  /** What is signed: a tag and the envelope. */
  lemma SigningFormat(e: Envelope)
    requires e.Fits()
    ensures Laid(SigningBytes(e), [Letters(SIGN_TEXT)] + EnvelopeFields(e))
  {
    hide Laid;
    hide EncodeEnvelope;
    hide EnvelopeFields;
    hide Ascii;
    hide IsAscii;
    EnvelopeLaid(e);
    TagTexts();
    AfterTag(SIGN_TEXT, EncodeEnvelope(e), EnvelopeFields(e));
  }

  /** For an echo: another tag, the echoer, and the sender's envelope with its signature. */
  lemma EchoFormat(echoer: nat, se: SignedEnvelope)
    requires se.Fits() && echoer < U64
    ensures Laid(EchoBytes(echoer, se), [Letters(ECHO_TEXT)] + ([Word(echoer)] + SignedFields(se)))
  {
    hide Laid;
    hide EncodeSigned;
    hide SignedFields;
    hide Ascii;
    hide IsAscii;
    SignedLaid(se);
    WordLaid(echoer);
    TagTexts();
    LaidAppend(PutU64(echoer), [Word(echoer)], EncodeSigned(se), SignedFields(se));
    AfterTag(ECHO_TEXT, PutU64(echoer) + EncodeSigned(se), [Word(echoer)] + SignedFields(se));
  }

  /** An ASCII tag and what follows it. */
  lemma AfterTag(text: string, b: bytes, fields: seq<Piece>)
    requires IsAscii(text) && Laid(b, fields)
    ensures Laid(Ascii(text) + b, [Letters(text)] + fields)
  {
    hide Laid;
    LaidStep(Ascii(text), Letters(text), b, fields);
  }
}
