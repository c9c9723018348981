/** The canonical wire format (src/runtime/transport.rs) and its framing (node/src/net/wire.rs).

    Each decoder takes one value from the front of its input.  Two facts are proved for each:
    round trip (it undoes the encoder, whatever follows) and canonicity (what it consumed is the
    encoding of what it returned). */
module Wire {
  import opened Field
  import opened Polynomials
  import opened Bytes

  /** A decoded value and the number of bytes consumed. */
  datatype Decoded<+T> = Fail | Took(value: T, used: nat)

  // ---------------------------------------------------------------- primitive fields

  lemma WidthIs()
    ensures Pow256(8) == U64 && Pow256(4) == 0x1_0000_0000
  {
  }

  function PutU64(n: nat): (s: bytes)
    ensures |s| == 8
  {
    BigEndian(n, 8)
  }

  function TakeU8(b: bytes): (r: Decoded<byte>)
    ensures r.Took? ==> r.used == 1 <= |b| && b[..1] == [r.value]
  {
    if b == [] then Fail else Took(b[0], 1)
  }

  function TakeU64(b: bytes): (r: Decoded<nat>)
    ensures r.Took? ==> r.used == 8 <= |b|
  {
    if |b| < 8 then Fail else Took(FromBigEndian(b[..8]), 8)
  }

  lemma U64RoundTrip(n: nat, rest: bytes)
    requires n < U64
    ensures TakeU64(PutU64(n) + rest) == Took(n, 8)
  {
    assert (PutU64(n) + rest)[..8] == PutU64(n);
    WidthIs();
    BigEndianRoundTrip(n, 8);
  }

  lemma U64Canonical(b: bytes)
    requires TakeU64(b).Took?
    ensures b[..8] == PutU64(TakeU64(b).value) && TakeU64(b).value < U64
  {
    FromBigEndianRoundTrip(b[..8]);
    WidthIs();
  }

  /** Length-prefixed bytes. */
  function PutBytes(s: bytes): bytes {
    PutU64(|s|) + s
  }

  function TakeBytes(b: bytes): (r: Decoded<bytes>)
    ensures r.Took? ==> r.used == 8 + |r.value| <= |b|
  {
    match TakeU64(b)
    case Fail => Fail
    case Took(n, used) => if used + n > |b| then Fail else Took(b[used..used + n], used + n)
  }

  lemma BytesRoundTrip(s: bytes, rest: bytes)
    requires |s| < U64
    ensures TakeBytes(PutBytes(s) + rest) == Took(s, 8 + |s|)
  {
    var b := PutBytes(s) + rest;
    assert b == PutU64(|s|) + (s + rest);
    U64RoundTrip(|s|, s + rest);
    assert b[8..8 + |s|] == s;
  }

  lemma BytesCanonical(b: bytes)
    requires TakeBytes(b).Took?
    ensures var r := TakeBytes(b); b[..r.used] == PutBytes(r.value) && |r.value| < U64
  {
    var r := TakeBytes(b);
    U64Canonical(b);
    Split(b, 8, |r.value|);
  }

  lemma Split(b: bytes, u: nat, v: nat)
    requires u + v <= |b|
    ensures b[..u + v] == b[..u] + b[u..][..v] && b[u..u + v] == b[u..][..v]
  {
  }

  function PutScalar(s: Scalar): (b: bytes)
    ensures |b| == 32
  {
    BigEndian(s, 32)
  }

  /** Canonical scalars only. */
  function TakeScalar(b: bytes): (r: Decoded<Scalar>)
    ensures r.Took? ==> r.used == 32 <= |b|
  {
    if |b| < 32 || FromBigEndian(b[..32]) >= Q then Fail else Took(FromBigEndian(b[..32]), 32)
  }

  lemma ScalarRoundTrip(s: Scalar, rest: bytes)
    ensures TakeScalar(PutScalar(s) + rest) == Took(s, 32)
  {
    assert (PutScalar(s) + rest)[..32] == PutScalar(s);
    ScalarFits(s);
    BigEndianRoundTrip(s, 32);
  }

  lemma ScalarCanonical(b: bytes)
    requires TakeScalar(b).Took?
    ensures b[..32] == PutScalar(TakeScalar(b).value)
  {
    FromBigEndianRoundTrip(b[..32]);
  }

  function TakePoint(b: bytes): (r: Decoded<Scalar>)
    ensures r.Took? ==> 1 <= r.used <= |b|
  {
    if b == [] then Fail
    else if b[0] == 0 then Took(0, 1)
    else if (b[0] == 2 || b[0] == 3) && |b| >= 33 then
      match Decompress(b[..33])
      case None => Fail
      case Some(p) => Took(p, 33)
    else Fail
  }

  lemma PointRoundTrip(p: Scalar, rest: bytes)
    ensures TakePoint(CompressedPoint(p) + rest) == Took(p, |CompressedPoint(p)|)
  {
    var c := CompressedPoint(p);
    assert (c + rest)[0] == c[0];
    assert (c + rest)[..|c|] == c;
    DecompressCompressed(p);
  }

  lemma PointCanonical(b: bytes)
    requires TakePoint(b).Took?
    ensures var r := TakePoint(b); b[..r.used] == CompressedPoint(r.value)
  {
    if b[0] == 0 {
      assert b[..1] == [0];
    }
  }

  // ---------------------------------------------------------------- commitments

  function EncodeCommitment(com: Poly): bytes {
    PutU64(|com|) + Points(com)
  }

  /** n points, one after the other. */
  function TakePoints(b: bytes, n: nat): (r: Decoded<Poly>)
    ensures r.Took? ==> r.used <= |b| && |r.value| == n
    decreases n
  {
    if n == 0 then Took([], 0)
    else
      match TakePoint(b)
      case Fail => Fail
      case Took(p, used) =>
        match TakePoints(b[used..], n - 1)
        case Fail => Fail
        case Took(ps, u) => Took([p] + ps, used + u)
  }

  lemma {:induction false} PointsRoundTrip(ps: Poly, rest: bytes)
    ensures TakePoints(Points(ps) + rest, |ps|) == Took(ps, |Points(ps)|)
    decreases |ps|
  {
    if ps != [] {
      var c, tail := CompressedPoint(ps[0]), Points(ps[1..]) + rest;
      assert Points(ps) + rest == c + tail;
      PointRoundTrip(ps[0], tail);
      assert (c + tail)[|c|..] == tail;
      PointsRoundTrip(ps[1..], rest);
      assert ps == [ps[0]] + ps[1..];
    }
  }

  lemma {:induction false} PointsCanonical(b: bytes, n: nat)
    requires TakePoints(b, n).Took?
    ensures var r := TakePoints(b, n); b[..r.used] == Points(r.value)
    decreases n
  {
    if n > 0 {
      var p := TakePoint(b);
      var ps := TakePoints(b[p.used..], n - 1);
      PointCanonical(b);
      PointsCanonical(b[p.used..], n - 1);
      Split(b, p.used, ps.used);
      assert ([p.value] + ps.value)[1..] == ps.value;
    }
  }

  /** Every point takes at least one byte. */
  lemma {:induction false} PointsSize(ps: Poly)
    ensures |ps| <= |Points(ps)| <= 33 * |ps|
    decreases |ps|
  {
    if ps != [] {
      PointsSize(ps[1..]);
    }
  }

  function DecodeCommitment(b: bytes): (r: Decoded<Poly>)
    ensures r.Took? ==> r.used <= |b|
  {
    match TakeU64(b)
    case Fail => Fail
    case Took(n, used) =>
      if n > |b| - used then Fail
      else
        match TakePoints(b[used..], n)
        case Fail => Fail
        case Took(ps, u) => Took(ps, used + u)
  }

  /** The decoder's loop over points. */
  method TakeCommitment(b: bytes) returns (r: Decoded<Poly>)
    ensures r == DecodeCommitment(b)
  {
    var head := TakeU64(b);
    if head.Fail? || head.value > |b| - head.used {
      return Fail;
    }
    var n, used, points: Poly := head.value, head.used, [];
    NoPointsYet(b, head.used, n);
    for i := 0 to n
      invariant |points| == i && head.used <= used <= |b|
      invariant PointsFrom(b, head.used, n, points, used)
    {
      OnePoint(b, head.used, n, points, used);
      var p := TakePoint(b[used..]);
      if p.Fail? {
        return Fail;
      }
      points := points + [p.value];
      used := used + p.used;
    }
    AllPoints(b, head.used, n, points, used);
    r := Took(points, used);
  }

  /** Taking n points from `start` amounts to prefixing `points` to the rest taken from `used`. */
  ghost predicate PointsFrom(b: bytes, start: nat, n: nat, points: Poly, used: nat) {
    && start <= used <= |b| && |points| <= n
    && TakePoints(b[start..], n) == Prefixed(points, used - start, TakePoints(b[used..], n - |points|))
  }

  ghost function Prefixed(points: Poly, extra: nat, r: Decoded<Poly>): Decoded<Poly> {
    match r case Fail => Fail case Took(ps, u) => Took(points + ps, extra + u)
  }

  lemma NoPointsYet(b: bytes, start: nat, n: nat)
    requires start <= |b|
    ensures PointsFrom(b, start, n, [], start)
  {
    var r := TakePoints(b[start..], n);
    if r.Took? {
      assert [] + r.value == r.value;
    }
  }

  lemma OnePoint(b: bytes, start: nat, n: nat, points: Poly, used: nat)
    requires PointsFrom(b, start, n, points, used) && |points| < n
    ensures var p := TakePoint(b[used..]);
      if p.Fail? then TakePoints(b[start..], n).Fail? else PointsFrom(b, start, n, points + [p.value], used + p.used)
  {
    var p := TakePoint(b[used..]);
    if p.Took? {
      assert b[used..][p.used..] == b[used + p.used..];
      var r := TakePoints(b[used + p.used..], n - |points| - 1);
      if r.Took? {
        assert points + ([p.value] + r.value) == points + [p.value] + r.value;
      }
    }
  }

  lemma AllPoints(b: bytes, start: nat, n: nat, points: Poly, used: nat)
    requires PointsFrom(b, start, n, points, used) && |points| == n
    ensures TakePoints(b[start..], n) == Took(points, used - start)
  {
    assert points + [] == points;
  }

  lemma CommitmentRoundTrip(com: Poly, rest: bytes)
    requires |com| < U64
    ensures DecodeCommitment(EncodeCommitment(com) + rest) == Took(com, |EncodeCommitment(com)|)
  {
    var b, tail := EncodeCommitment(com) + rest, Points(com) + rest;
    assert b == PutU64(|com|) + tail;
    U64RoundTrip(|com|, tail);
    assert b[8..] == tail;
    PointsSize(com);
    PointsRoundTrip(com, rest);
  }

  lemma CommitmentCanonical(b: bytes)
    requires DecodeCommitment(b).Took?
    ensures var r := DecodeCommitment(b); b[..r.used] == EncodeCommitment(r.value) && |r.value| < U64
  {
    var n := TakeU64(b).value;
    U64Canonical(b);
    PointsCanonical(b[8..], n);
    Split(b, 8, TakePoints(b[8..], n).used);
  }

  lemma PrefixSplit(b: bytes, k: nat, u: nat)
    requires u <= k <= |b|
    ensures b == b[..k][..u] + b[u..] && b == b + []
  {
  }

  /** No strict prefix of a commitment decodes. */
  lemma NoCommitmentPrefix(com: Poly, k: nat)
    requires |com| < U64 && k < |EncodeCommitment(com)|
    ensures DecodeCommitment(EncodeCommitment(com)[..k]).Fail?
  {
    hide EncodeCommitment;
    hide DecodeCommitment;
    var b := EncodeCommitment(com);
    if DecodeCommitment(b[..k]).Took? {
      var r := DecodeCommitment(b[..k]);
      CommitmentCanonical(b[..k]);
      PrefixSplit(b, k, r.used);
      CommitmentRoundTrip(r.value, b[r.used..]);
      CommitmentRoundTrip(com, []);
    }
  }

  // ---------------------------------------------------------------- messages

  datatype DkgMessage =
    | Commit(from: nat, hash: bytes)
    | Reveal(from: nat, com: Poly)
    | Share(from: nat, to: nat, share: Scalar)
  {
    /** What machine values satisfy: 64-bit ids and lengths, 32-byte digests. */
    ghost predicate Fits() {
      match this
      case Commit(from, hash) => from < U64 && |hash| == 32
      case Reveal(from, com) => from < U64 && |com| < U64
      case Share(from, to, _) => from < U64 && to < U64
    }
  }

  function TagOf(m: DkgMessage): byte {
    match m case Commit(_, _) => 1 case Reveal(_, _) => 2 case Share(_, _, _) => 3
  }

  function EncodeBody(m: DkgMessage): bytes {
    match m
    case Commit(from, hash) => PutU64(from) + PutBytes(hash)
    case Reveal(from, com) => PutU64(from) + EncodeCommitment(com)
    case Share(from, to, share) => PutU64(from) + (PutU64(to) + PutScalar(share))
  }

  function EncodeMessage(m: DkgMessage): bytes {
    [TagOf(m)] + EncodeBody(m)
  }

  function DecodeCommit(b: bytes): (r: Decoded<DkgMessage>)
    ensures r.Took? ==> r.used <= |b|
  {
    match TakeU64(b)
    case Fail => Fail
    case Took(from, used) =>
      match TakeBytes(b[used..])
      case Fail => Fail
      case Took(hash, u) => if |hash| != 32 then Fail else Took(Commit(from, hash), used + u)
  }

  function DecodeReveal(b: bytes): (r: Decoded<DkgMessage>)
    ensures r.Took? ==> r.used <= |b|
  {
    match TakeU64(b)
    case Fail => Fail
    case Took(from, used) =>
      match DecodeCommitment(b[used..])
      case Fail => Fail
      case Took(com, u) => Took(Reveal(from, com), used + u)
  }

  function DecodeShare(b: bytes): (r: Decoded<DkgMessage>)
    ensures r.Took? ==> r.used <= |b|
  {
    match TakeU64(b)
    case Fail => Fail
    case Took(from, used) =>
      match TakeU64(b[used..])
      case Fail => Fail
      case Took(to, u) =>
        match TakeScalar(b[used + u..])
        case Fail => Fail
        case Took(share, w) => Took(Share(from, to, share), used + u + w)
  }

  function DecodeBody(tag: byte, b: bytes): (r: Decoded<DkgMessage>)
    ensures r.Took? ==> r.used <= |b|
  {
    if tag == 1 then DecodeCommit(b)
    else if tag == 2 then DecodeReveal(b)
    else if tag == 3 then DecodeShare(b)
    else Fail
  }

  function DecodeMessage(b: bytes): (r: Decoded<DkgMessage>)
    ensures r.Took? ==> r.used <= |b|
  {
    match TakeU8(b)
    case Fail => Fail
    case Took(tag, used) =>
      match DecodeBody(tag, b[used..])
      case Fail => Fail
      case Took(m, u) => Took(m, used + u)
  }

  lemma CommitRoundTrip(from: nat, hash: bytes, rest: bytes)
    requires from < U64 && |hash| == 32
    ensures DecodeCommit(PutU64(from) + PutBytes(hash) + rest) == Took(Commit(from, hash), 48)
  {
    var tail := PutBytes(hash) + rest;
    assert PutU64(from) + PutBytes(hash) + rest == PutU64(from) + tail;
    U64RoundTrip(from, tail);
    assert (PutU64(from) + tail)[8..] == tail;
    BytesRoundTrip(hash, rest);
  }

  lemma RevealRoundTrip(from: nat, com: Poly, rest: bytes)
    requires from < U64 && |com| < U64
    ensures DecodeReveal(PutU64(from) + EncodeCommitment(com) + rest) ==
      Took(Reveal(from, com), 8 + |EncodeCommitment(com)|)
  {
    var tail := EncodeCommitment(com) + rest;
    assert PutU64(from) + EncodeCommitment(com) + rest == PutU64(from) + tail;
    U64RoundTrip(from, tail);
    assert (PutU64(from) + tail)[8..] == tail;
    CommitmentRoundTrip(com, rest);
  }

  lemma ShareRoundTrip(from: nat, to: nat, share: Scalar, rest: bytes)
    requires from < U64 && to < U64
    ensures DecodeShare(PutU64(from) + (PutU64(to) + PutScalar(share)) + rest) == Took(Share(from, to, share), 48)
  {
    var last := PutScalar(share) + rest;
    var b := PutU64(from) + (PutU64(to) + last);
    assert PutU64(from) + (PutU64(to) + PutScalar(share)) + rest == b;
    U64RoundTrip(from, PutU64(to) + last);
    assert b[8..] == PutU64(to) + last;
    U64RoundTrip(to, last);
    assert b[16..] == last;
    ScalarRoundTrip(share, rest);
  }

  lemma BodyRoundTrip(m: DkgMessage, rest: bytes)
    requires m.Fits()
    ensures DecodeBody(TagOf(m), EncodeBody(m) + rest) == Took(m, |EncodeBody(m)|)
  {
    hide DecodeCommit;
    hide DecodeReveal;
    hide DecodeShare;
    hide EncodeCommitment;
    match m {
      case Commit(from, hash) => CommitRoundTrip(from, hash, rest);
      case Reveal(from, com) => RevealRoundTrip(from, com, rest);
      case Share(from, to, share) => ShareRoundTrip(from, to, share, rest);
    }
  }

  lemma MessageRoundTrip(m: DkgMessage, rest: bytes)
    requires m.Fits()
    ensures DecodeMessage(EncodeMessage(m) + rest) == Took(m, |EncodeMessage(m)|)
  {
    hide DecodeBody;
    hide EncodeBody;
    var b := EncodeMessage(m) + rest;
    assert b[1..] == EncodeBody(m) + rest;
    BodyRoundTrip(m, rest);
  }

  lemma BodyCanonical(tag: byte, c: bytes)
    requires DecodeBody(tag, c).Took?
    ensures var r := DecodeBody(tag, c); tag == TagOf(r.value) && c[..r.used] == EncodeBody(r.value) && r.value.Fits()
  {
    U64Canonical(c);
    if tag == 1 {
      BytesCanonical(c[8..]);
      Split(c, 8, TakeBytes(c[8..]).used);
    } else if tag == 2 {
      CommitmentCanonical(c[8..]);
      Split(c, 8, DecodeCommitment(c[8..]).used);
    } else {
      U64Canonical(c[8..]);
      ScalarCanonical(c[16..]);
      Split(c, 8, 40);
      Split(c[8..], 8, 32);
      assert c[8..][8..] == c[16..];
    }
  }

  lemma MessageCanonical(b: bytes)
    requires DecodeMessage(b).Took?
    ensures var r := DecodeMessage(b); b[..r.used] == EncodeMessage(r.value) && r.value.Fits()
  {
    hide DecodeBody;
    hide EncodeBody;
    BodyCanonical(b[0], b[1..]);
    Split(b, 1, DecodeMessage(b).used - 1);
  }

  /** No strict prefix of a dealing message decodes. */
  lemma NoMessagePrefix(m: DkgMessage, k: nat)
    requires m.Fits() && k < |EncodeMessage(m)|
    ensures DecodeMessage(EncodeMessage(m)[..k]).Fail?
  {
    hide EncodeMessage;
    hide DecodeMessage;
    var b := EncodeMessage(m);
    if DecodeMessage(b[..k]).Took? {
      var r := DecodeMessage(b[..k]);
      MessageCanonical(b[..k]);
      PrefixSplit(b, k, r.used);
      MessageRoundTrip(r.value, b[r.used..]);
      MessageRoundTrip(m, []);
    }
  }

  // ---------------------------------------------------------------- envelopes

  datatype Phase = KeyGen | TriplesPhase | PresignPhase | SignPhase | RefreshPhase

  function PhaseCode(p: Phase): byte {
    match p
    case KeyGen => 1
    case TriplesPhase => 2
    case PresignPhase => 3
    case SignPhase => 4
    case RefreshPhase => 5
  }

  function PhaseDecode(code: byte): (r: Option<Phase>)
    ensures r.Some? ==> PhaseCode(r.value) == code
  {
    if code == 1 then Some(KeyGen)
    else if code == 2 then Some(TriplesPhase)
    else if code == 3 then Some(PresignPhase)
    else if code == 4 then Some(SignPhase)
    else if code == 5 then Some(RefreshPhase)
    else None
  }

  datatype Envelope = Envelope(sid: bytes, phase: Phase, round: byte, from: nat, to: Option<nat>, payload: DkgMessage) {
    ghost predicate Fits() {
      && |sid| < U64 && from < U64 && (to.Some? ==> to.value < U64)
      && payload.Fits() && |EncodeMessage(payload)| < U64
    }
  }

  /** Session, phase, round and sender. */
  datatype Head = Head(sid: bytes, phase: Phase, round: byte, from: nat)

  function EncodeHead(h: Head): bytes {
    PutBytes(h.sid) + ([PhaseCode(h.phase), h.round] + PutU64(h.from))
  }

  function DecodeHead(b: bytes): (r: Decoded<Head>)
    ensures r.Took? ==> r.used <= |b|
  {
    match TakeBytes(b)
    case Fail => Fail
    case Took(sid, u) =>
      var c := b[u..];
      if |c| < 2 then Fail
      else
        match PhaseDecode(c[0])
        case None => Fail
        case Some(phase) =>
          match TakeU64(c[2..])
          case Fail => Fail
          case Took(from, w) => Took(Head(sid, phase, c[1], from), u + 2 + w)
  }

  lemma HeadRoundTrip(h: Head, rest: bytes)
    requires |h.sid| < U64 && h.from < U64
    ensures DecodeHead(EncodeHead(h) + rest) == Took(h, |EncodeHead(h)|)
  {
    var last := PutU64(h.from) + rest;
    var c := [PhaseCode(h.phase), h.round] + last;
    assert EncodeHead(h) + rest == PutBytes(h.sid) + c;
    BytesRoundTrip(h.sid, c);
    assert (PutBytes(h.sid) + c)[8 + |h.sid|..] == c;
    assert c[2..] == last;
    U64RoundTrip(h.from, rest);
  }

  lemma HeadCanonical(b: bytes)
    requires DecodeHead(b).Took?
    ensures var r := DecodeHead(b); b[..r.used] == EncodeHead(r.value) && |r.value.sid| < U64 && r.value.from < U64
  {
    var u := TakeBytes(b).used;
    var c := b[u..];
    BytesCanonical(b);
    U64Canonical(c[2..]);
    Split(c, 2, 8);
    Split(b, u, 10);
  }

  function EncodeTo(to: Option<nat>): bytes {
    match to case None => [0] case Some(j) => [1] + PutU64(j)
  }

  function DecodeTo(b: bytes): (r: Decoded<Option<nat>>)
    ensures r.Took? ==> r.used <= |b|
  {
    if b == [] then Fail
    else if b[0] == 0 then Took(None, 1)
    else if b[0] == 1 then
      match TakeU64(b[1..])
      case Fail => Fail
      case Took(j, u) => Took(Some(j), 1 + u)
    else Fail
  }

  lemma ToRoundTrip(to: Option<nat>, rest: bytes)
    requires to.Some? ==> to.value < U64
    ensures DecodeTo(EncodeTo(to) + rest) == Took(to, |EncodeTo(to)|)
  {
    if to.Some? {
      assert (EncodeTo(to) + rest)[1..] == PutU64(to.value) + rest;
      U64RoundTrip(to.value, rest);
    }
  }

  lemma ToCanonical(b: bytes)
    requires DecodeTo(b).Took?
    ensures var r := DecodeTo(b); b[..r.used] == EncodeTo(r.value) && (r.value.Some? ==> r.value.value < U64)
  {
    if b[0] == 1 {
      U64Canonical(b[1..]);
      Split(b, 1, 8);
    }
  }

  /** The payload field: length-prefixed, and it must decode exactly. */
  function EncodePayload(m: DkgMessage): bytes {
    PutBytes(EncodeMessage(m))
  }

  function DecodePayload(b: bytes): (r: Decoded<DkgMessage>)
    ensures r.Took? ==> r.used <= |b|
  {
    match TakeBytes(b)
    case Fail => Fail
    case Took(p, u) =>
      match DecodeMessage(p)
      case Fail => Fail
      case Took(m, w) => if w != |p| then Fail else Took(m, u)
  }

  lemma PayloadRoundTrip(m: DkgMessage, rest: bytes)
    requires m.Fits() && |EncodeMessage(m)| < U64
    ensures DecodePayload(EncodePayload(m) + rest) == Took(m, |EncodePayload(m)|)
  {
    hide EncodeMessage;
    hide DecodeMessage;
    BytesRoundTrip(EncodeMessage(m), rest);
    assert EncodeMessage(m) + [] == EncodeMessage(m);
    MessageRoundTrip(m, []);
  }

  lemma PayloadCanonical(b: bytes)
    requires DecodePayload(b).Took?
    ensures var r := DecodePayload(b);
      b[..r.used] == EncodePayload(r.value) && r.value.Fits() && |EncodeMessage(r.value)| < U64
  {
    hide EncodeMessage;
    hide DecodeMessage;
    BytesCanonical(b);
    var p := TakeBytes(b).value;
    MessageCanonical(p);
    assert p[..|p|] == p;
  }

  function EncodeEnvelope(e: Envelope): bytes {
    EncodeHead(Head(e.sid, e.phase, e.round, e.from)) + (EncodeTo(e.to) + EncodePayload(e.payload))
  }

  function DecodeEnvelope(b: bytes): (r: Decoded<Envelope>)
    ensures r.Took? ==> r.used <= |b|
  {
    match DecodeHead(b)
    case Fail => Fail
    case Took(h, u) =>
      match DecodeTo(b[u..])
      case Fail => Fail
      case Took(to, v) =>
        match DecodePayload(b[u..][v..])
        case Fail => Fail
        case Took(m, w) => Took(Envelope(h.sid, h.phase, h.round, h.from, to, m), u + v + w)
  }

  lemma EnvelopeRoundTrip(e: Envelope, rest: bytes)
    requires e.Fits()
    ensures DecodeEnvelope(EncodeEnvelope(e) + rest) == Took(e, |EncodeEnvelope(e)|)
  {
    hide EncodeHead;
    hide DecodeHead;
    hide EncodeTo;
    hide DecodeTo;
    hide EncodePayload;
    hide DecodePayload;
    hide EncodeMessage;
    var h := Head(e.sid, e.phase, e.round, e.from);
    var last := EncodePayload(e.payload) + rest;
    var mid := EncodeTo(e.to) + last;
    assert EncodeEnvelope(e) + rest == EncodeHead(h) + mid;
    HeadRoundTrip(h, mid);
    assert (EncodeHead(h) + mid)[|EncodeHead(h)|..] == mid;
    ToRoundTrip(e.to, last);
    assert mid[|EncodeTo(e.to)|..] == last;
    PayloadRoundTrip(e.payload, rest);
  }

  lemma EnvelopeCanonical(b: bytes)
    requires DecodeEnvelope(b).Took?
    ensures var r := DecodeEnvelope(b); b[..r.used] == EncodeEnvelope(r.value) && r.value.Fits()
  {
    hide EncodeHead;
    hide DecodeHead;
    hide EncodeTo;
    hide DecodeTo;
    hide EncodePayload;
    hide DecodePayload;
    hide EncodeMessage;
    var u := DecodeHead(b).used;
    var c := b[u..];
    var v := DecodeTo(c).used;
    HeadCanonical(b);
    ToCanonical(c);
    PayloadCanonical(c[v..]);
    Split(c, v, DecodePayload(c[v..]).used);
    Split(b, u, v + DecodePayload(c[v..]).used);
  }

  /** No strict prefix of an envelope decodes. */
  lemma NoEnvelopePrefix(e: Envelope, k: nat)
    requires e.Fits() && k < |EncodeEnvelope(e)|
    ensures DecodeEnvelope(EncodeEnvelope(e)[..k]).Fail?
  {
    hide EncodeEnvelope;
    hide DecodeEnvelope;
    var b := EncodeEnvelope(e);
    if DecodeEnvelope(b[..k]).Took? {
      var r := DecodeEnvelope(b[..k]);
      EnvelopeCanonical(b[..k]);
      PrefixSplit(b, k, r.used);
      EnvelopeRoundTrip(r.value, b[r.used..]);
      EnvelopeRoundTrip(e, []);
    }
  }

  // ---------------------------------------------------------------- signed messages

  /** An ECDSA signature value: both components nonzero. */
  datatype Signature = Signature(r: Scalar, s: Scalar) {
    predicate Proper() { r != 0 && s != 0 }
  }

  function EncodeSignature(g: Signature): (b: bytes)
    ensures |b| == 64
  {
    PutScalar(g.r) + PutScalar(g.s)
  }

  function DecodeSignature(b: bytes): (r: Decoded<Signature>)
    ensures r.Took? ==> r.used == 64 <= |b| && r.value.Proper()
  {
    match TakeScalar(b)
    case Fail => Fail
    case Took(r, u) =>
      match TakeScalar(b[u..])
      case Fail => Fail
      case Took(s, v) => if r == 0 || s == 0 then Fail else Took(Signature(r, s), u + v)
  }

  lemma SignatureRoundTrip(g: Signature, rest: bytes)
    requires g.Proper()
    ensures DecodeSignature(EncodeSignature(g) + rest) == Took(g, 64)
  {
    var last := PutScalar(g.s) + rest;
    assert EncodeSignature(g) + rest == PutScalar(g.r) + last;
    ScalarRoundTrip(g.r, last);
    assert (PutScalar(g.r) + last)[32..] == last;
    ScalarRoundTrip(g.s, rest);
  }

  lemma SignatureCanonical(b: bytes)
    requires DecodeSignature(b).Took?
    ensures b[..64] == EncodeSignature(DecodeSignature(b).value)
  {
    ScalarCanonical(b);
    ScalarCanonical(b[32..]);
    Split(b, 32, 32);
  }

  datatype SignedEnvelope = SignedEnvelope(envelope: Envelope, signature: Signature) {
    ghost predicate Fits() { envelope.Fits() && signature.Proper() }
  }

  function EncodeSigned(se: SignedEnvelope): bytes {
    EncodeEnvelope(se.envelope) + EncodeSignature(se.signature)
  }

  function DecodeSigned(b: bytes): (r: Decoded<SignedEnvelope>)
    ensures r.Took? ==> r.used <= |b|
  {
    match DecodeEnvelope(b)
    case Fail => Fail
    case Took(e, u) =>
      match DecodeSignature(b[u..])
      case Fail => Fail
      case Took(g, v) => Took(SignedEnvelope(e, g), u + v)
  }

  lemma SignedRoundTrip(se: SignedEnvelope, rest: bytes)
    requires se.Fits()
    ensures DecodeSigned(EncodeSigned(se) + rest) == Took(se, |EncodeSigned(se)|)
  {
    hide EncodeEnvelope;
    hide DecodeEnvelope;
    hide EncodeSignature;
    hide DecodeSignature;
    hide EncodeMessage;
    var e, last := EncodeEnvelope(se.envelope), EncodeSignature(se.signature) + rest;
    assert EncodeSigned(se) + rest == e + last;
    EnvelopeRoundTrip(se.envelope, last);
    assert (e + last)[|e|..] == last;
    SignatureRoundTrip(se.signature, rest);
  }

  lemma SignedCanonical(b: bytes)
    requires DecodeSigned(b).Took?
    ensures var r := DecodeSigned(b); b[..r.used] == EncodeSigned(r.value) && r.value.Fits()
  {
    hide EncodeEnvelope;
    hide DecodeEnvelope;
    hide EncodeSignature;
    hide DecodeSignature;
    hide EncodeMessage;
    var u := DecodeEnvelope(b).used;
    EnvelopeCanonical(b);
    SignatureCanonical(b[u..]);
    Split(b, u, 64);
    assert DecodeSignature(b[u..]).value.Proper();
  }

  /** No strict prefix of a signed envelope decodes. */
  lemma NoSignedPrefix(se: SignedEnvelope, k: nat)
    requires se.Fits() && k < |EncodeSigned(se)|
    ensures DecodeSigned(EncodeSigned(se)[..k]).Fail?
  {
    hide EncodeSigned;
    hide DecodeSigned;
    var b := EncodeSigned(se);
    if DecodeSigned(b[..k]).Took? {
      var r := DecodeSigned(b[..k]);
      SignedCanonical(b[..k]);
      PrefixSplit(b, k, r.used);
      SignedRoundTrip(r.value, b[r.used..]);
      SignedRoundTrip(se, []);
    }
  }

  /** What is signed: a tag and all six fields. */
  const TRANSPORT_SIGN: bytes := Ascii("OHM-ECDSA/v0.1/transport-sign")
  const ECHO_TAG: bytes := Ascii("OHM-ECDSA-NODE/v0.1/echo")

  function SigningBytes(e: Envelope): bytes {
    TRANSPORT_SIGN + EncodeEnvelope(e)
  }

  function EchoBytes(echoer: nat, original: SignedEnvelope): bytes {
    ECHO_TAG + (PutU64(echoer) + EncodeSigned(original))
  }

  lemma DropPrefix(tag: bytes, a: bytes, b: bytes)
    requires tag + a == tag + b
    ensures a == b
  {
    assert (tag + a)[|tag|..] == a && (tag + b)[|tag|..] == b;
  }

  /** A signature covers exactly one envelope, an echo signature exactly one echo, and neither can
      serve as the other. */
  lemma SignaturesBind(e: Envelope, f: Envelope, i: nat, j: nat, se: SignedEnvelope, sf: SignedEnvelope)
    requires e.Fits() && f.Fits() && se.Fits() && sf.Fits() && i < U64 && j < U64
    ensures SigningBytes(e) == SigningBytes(f) ==> e == f
    ensures EchoBytes(i, se) == EchoBytes(j, sf) ==> i == j && se == sf
    ensures SigningBytes(e) != EchoBytes(i, se)
  {
    hide EncodeEnvelope;
    hide EncodeSigned;
    hide EncodeMessage;
    if SigningBytes(e) == SigningBytes(f) {
      DropPrefix(TRANSPORT_SIGN, EncodeEnvelope(e), EncodeEnvelope(f));
      EnvelopeRoundTrip(e, []);
      EnvelopeRoundTrip(f, []);
    }
    if EchoBytes(i, se) == EchoBytes(j, sf) {
      var a, b := PutU64(i) + EncodeSigned(se), PutU64(j) + EncodeSigned(sf);
      DropPrefix(ECHO_TAG, a, b);
      assert a[..8] == PutU64(i) && b[..8] == PutU64(j) && a[8..] == EncodeSigned(se) && b[8..] == EncodeSigned(sf);
      WidthIs();
      BigEndianInjective(i, j, 8);
      SignedRoundTrip(se, []);
      SignedRoundTrip(sf, []);
    }
    TagsApart();
    assert SigningBytes(e)[9] == TRANSPORT_SIGN[9] && EchoBytes(i, se)[9] == ECHO_TAG[9];
  }

  lemma TagsApart()
    ensures |TRANSPORT_SIGN| > 9 && |ECHO_TAG| > 9 && TRANSPORT_SIGN[9] != ECHO_TAG[9]
  {
    var s, t := "OHM-ECDSA/v0.1/transport-sign", "OHM-ECDSA-NODE/v0.1/echo";
    assert s[9] == '/' && t[9] == '-';
  }
}
