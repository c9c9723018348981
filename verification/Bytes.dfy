/** Byte strings: fixed-width big-endian integers, and the two foreign encodings the protocol
    relies on, known only through what they promise (an injective, self-delimiting point code and
    a collision-free hash). */
module Bytes {
  import opened Field

  type byte = b: int | 0 <= b < 256

  type bytes = seq<byte>

  /** What 64 bits can hold. */
  const U64: nat := 0x1_0000_0000_0000_0000

  /** Every character is one byte. */
  ghost predicate IsAscii(text: string) {
    forall k :: 0 <= k < |text| ==> text[k] as int < 256
  }

  /** The bytes of an ASCII literal. */
  function Ascii(s: string): (b: bytes)
    ensures |b| == |s|
  {
    seq(|s|, i requires 0 <= i < |s| => (s[i] as int) % 256)
  }

  ghost function Pow256(k: nat): (p: nat)
    ensures p >= 1
  {
    if k == 0 then 1 else 256 * Pow256(k - 1)
  }

  /** The low `width` bytes of n, most significant first. */
  function BigEndian(n: nat, width: nat): (s: bytes)
    ensures |s| == width
  {
    if width == 0 then [] else BigEndian(n / 256, width - 1) + [n % 256]
  }

  function FromBigEndian(s: bytes): nat {
    if s == [] then 0 else FromBigEndian(s[..|s| - 1]) * 256 + s[|s| - 1]
  }

  lemma {:induction false} BigEndianRoundTrip(n: nat, width: nat)
    requires n < Pow256(width)
    ensures FromBigEndian(BigEndian(n, width)) == n
    decreases width
  {
    if width > 0 {
      BigEndianRoundTrip(n / 256, width - 1);
      assert BigEndian(n, width)[..width - 1] == BigEndian(n / 256, width - 1);
    }
  }

  lemma {:induction false} FromBigEndianRoundTrip(s: bytes)
    ensures FromBigEndian(s) < Pow256(|s|) && BigEndian(FromBigEndian(s), |s|) == s
    decreases |s|
  {
    if s != [] {
      var n := |s| - 1;
      FromBigEndianRoundTrip(s[..n]);
      assert FromBigEndian(s) / 256 == FromBigEndian(s[..n]);
      assert s == s[..n] + [s[n]];
    }
  }

  /** The byte order: leading bytes weigh a power of 256 for every byte after them. */
  lemma {:induction false} FromBigEndianAppend(x: bytes, y: bytes)
    ensures FromBigEndian(x + y) == FromBigEndian(x) * Pow256(|y|) + FromBigEndian(y)
    ensures forall c: byte :: FromBigEndian([c]) == c as nat
    decreases |y|
  {
    if y == [] {
      assert x + y == x;
      forall c: byte ensures FromBigEndian([c]) == c as nat { assert [c][..0] == []; }
    } else {
      var n := |y| - 1;
      FromBigEndianAppend(x, y[..n]);
      assert (x + y)[..|x| + n] == x + y[..n];
      assert FromBigEndian(x) * Pow256(|y|) == FromBigEndian(x) * Pow256(n) * 256;
    }
  }

  lemma BigEndianInjective(m: nat, n: nat, width: nat)
    requires m < Pow256(width) && n < Pow256(width) && BigEndian(m, width) == BigEndian(n, width)
    ensures m == n
  {
    BigEndianRoundTrip(m, width);
    BigEndianRoundTrip(n, width);
  }

  lemma ScalarFits(s: Scalar)
    ensures s < Pow256(32)
  {
    assert Pow256(8) == 0x1_0000000000000000;
    assert Pow256(16) == 0x1_0000000000000000_0000000000000000 by { Pow256Split(8, 8); }
    assert Pow256(32) == 0x1_0000000000000000_0000000000000000_0000000000000000_0000000000000000 by {
      Pow256Split(16, 16);
    }
  }

  lemma {:induction false} Pow256Split(a: nat, b: nat)
    ensures Pow256(a + b) == Pow256(a) * Pow256(b)
  {
    if a > 0 {
      Pow256Split(a - 1, b);
      assert 256 * (Pow256(a - 1) * Pow256(b)) == (256 * Pow256(a - 1)) * Pow256(b);
    }
  }

  // ---------------------------------------------------------------- points

  datatype Option<+T> = None | Some(value: T)

  /** SEC 1 point octet strings: one zero byte for the identity, otherwise 33 bytes that start
      with 2 or 3; decompression undoes compression and accepts nothing else. */
  ghost predicate IsPointCode(c: (Scalar -> bytes, bytes -> Option<Scalar>)) {
    && c.0(0) == [0]
    && (forall p: Scalar :: p != 0 ==> |c.0(p)| == 33 && (c.0(p)[0] == 2 || c.0(p)[0] == 3))
    && (forall p: Scalar :: c.1(c.0(p)) == Some(p))
    && (forall b: bytes :: c.1(b).Some? ==> c.0(c.1(b).value) == b)
  }

  function SomePointCode(): (c: (Scalar -> bytes, bytes -> Option<Scalar>))
    ensures IsPointCode(c)
  {
    var c := ((p: Scalar) => SomeCompress(p), (b: bytes) => SomeDecompress(b));
    SomePointCodeIs(c);
    c
  }

  function SomeCompress(p: Scalar): bytes {
    if p == 0 then [0] else [2] + BigEndian(p, 32)
  }

  function SomeDecompress(b: bytes): Option<Scalar> {
    if b == [0] then Some(0)
    else if |b| == 33 && b[0] == 2 && 0 < FromBigEndian(b[1..]) < Q then Some(FromBigEndian(b[1..]))
    else None
  }

  lemma SomePointCodeIs(c: (Scalar -> bytes, bytes -> Option<Scalar>))
    requires forall p: Scalar :: c.0(p) == SomeCompress(p)
    requires forall b: bytes :: c.1(b) == SomeDecompress(b)
    ensures IsPointCode(c)
  {
    forall p: Scalar
      ensures SomeDecompress(SomeCompress(p)) == Some(p)
    {
      if p != 0 {
        assert SomeCompress(p)[1..] == BigEndian(p, 32);
        ScalarFits(p);
        BigEndianRoundTrip(p, 32);
      }
    }
    forall b: bytes | SomeDecompress(b).Some?
      ensures SomeCompress(SomeDecompress(b).value) == b
    {
      if b != [0] {
        FromBigEndianRoundTrip(b[1..]);
        assert b == [2] + b[1..];
      }
    }
  }

  type PointCode = c: (Scalar -> bytes, bytes -> Option<Scalar>) | IsPointCode(c) witness SomePointCode()

  const POINT_CODEC: PointCode

  function CompressedPoint(p: Scalar): (b: bytes)
    ensures p == 0 ==> b == [0]
    ensures p != 0 ==> |b| == 33 && (b[0] == 2 || b[0] == 3)
  {
    POINT_CODEC.0(p)
  }

  function Decompress(b: bytes): (p: Option<Scalar>)
    ensures p.Some? ==> CompressedPoint(p.value) == b
  {
    POINT_CODEC.1(b)
  }

  lemma DecompressCompressed(p: Scalar)
    ensures Decompress(CompressedPoint(p)) == Some(p)
  {
  }

  /** Concatenated point strings: what a commitment contributes to a transcript. */
  function Points(ps: seq<Scalar>): bytes {
    if ps == [] then [] else CompressedPoint(ps[0]) + Points(ps[1..])
  }

  /** The strings come one after another, in the order of the points. */
  lemma {:induction false} PointsAppend(ps: seq<Scalar>, qs: seq<Scalar>)
    ensures Points(ps + qs) == Points(ps) + Points(qs)
    decreases |ps|
  {
    if ps == [] {
      assert ps + qs == qs;
    } else {
      assert (ps + qs)[1..] == ps[1..] + qs;
      PointsAppend(ps[1..], qs);
    }
  }

  /** Point strings are self-delimiting, so equally many points with the same bytes are the same. */
  lemma {:induction false} PointsInjective(ps: seq<Scalar>, qs: seq<Scalar>, a: bytes, b: bytes)
    requires |ps| == |qs| && Points(ps) + a == Points(qs) + b
    ensures ps == qs && a == b
    decreases |ps|
  {
    if ps == [] {
      assert Points(ps) + a == a && Points(qs) + b == b;
    } else {
      var c, d := CompressedPoint(ps[0]), CompressedPoint(qs[0]);
      assert Points(ps) + a == c + (Points(ps[1..]) + a);
      assert Points(qs) + b == d + (Points(qs[1..]) + b);
      SameFirstPoint(ps[0], qs[0], Points(ps[1..]) + a, Points(qs[1..]) + b);
      PointsInjective(ps[1..], qs[1..], a, b);
      assert ps == [ps[0]] + ps[1..] && qs == [qs[0]] + qs[1..];
    }
  }

  lemma SameFirstPoint(p: Scalar, q: Scalar, a: bytes, b: bytes)
    requires CompressedPoint(p) + a == CompressedPoint(q) + b
    ensures p == q && a == b
  {
    var c, d := CompressedPoint(p), CompressedPoint(q);
    assert (c + a)[0] == c[0] && (d + b)[0] == d[0];
    assert |c| == |d|;
    assert (c + a)[..|c|] == c && (d + b)[..|d|] == d;
    DecompressCompressed(p);
    DecompressCompressed(q);
    assert (c + a)[|c|..] == a && (d + b)[|d|..] == b;
  }

  // ---------------------------------------------------------------- hashing

  ghost predicate IsCollisionFree(h: bytes -> bytes) {
    forall x, y :: h(x) == h(y) ==> x == y
  }

  type CollisionFree = h: bytes -> bytes | IsCollisionFree(h) witness x => x

  /** The transcript hash. */
  const HASH: CollisionFree
}
