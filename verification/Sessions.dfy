/** The dealing sessions inside one presigning run (src/protocol/presign.rs, src/protocol/triples.rs)
    are kept apart by their session ids: a round-1 hash made for one of them opens in no other. */
module Sessions {
  import opened Polynomials
  import opened Bytes
  import opened Dkg
  import Triples
  import TriplesBatch
  import Refresh
  import Wire
  import EndToEnd

  /** The six dealings of a base or robust run: the factors of two triples, and both masks. */
  ghost function RunSessions(sid: bytes, t: nat): (r: seq<Session>)
    ensures |r| == 6
  {
    [Triples.AlphaSession(sid + Ascii("/t1"), t), Triples.BetaSession(sid + Ascii("/t1"), t),
     Triples.AlphaSession(sid + Ascii("/t2"), t), Triples.BetaSession(sid + Ascii("/t2"), t),
     EndToEnd.USession(sid, t), EndToEnd.ASession(sid, t)]
  }

  /** The three dealings of a packed run. */
  ghost function PackedSessions(sid: bytes, len: nat): (r: seq<Session>)
    ensures |r| == 3
  {
    [Triples.PackedSession(sid + Ascii("/t1"), len), Triples.PackedSession(sid + Ascii("/t2"), len),
     EndToEnd.UaxSession(sid, len)]
  }

  /** The session's id is sid and then the given characters. */
  ghost predicate Suffixed(z: Session, sid: bytes, suffix: string) {
    && |z.sid| == |sid| + |suffix| && z.sid[..|sid|] == sid
    && forall k :: 0 <= k < |suffix| ==> z.sid[|sid| + k] as int == suffix[k] as int
  }

  const RUN_SUFFIXES: seq<string> := ["/t1/alpha", "/t1/beta", "/t2/alpha", "/t2/beta", "/u", "/a"]
  const PACKED_SUFFIXES: seq<string> := ["/t1", "/t2", "/uax"]

  /** Two suffixes of the list differ somewhere, so that neither is a prefix of the other. */
  ghost predicate Apart(x: string, y: string) {
    exists k :: DifferAt(x, y, k)
  }

  ghost predicate DifferAt(x: string, y: string, k: int) {
    0 <= k < |x| && k < |y| && x[k] != y[k]
  }

  lemma Extended(sid: bytes, x: string, y: string, z: Session)
    requires IsAscii(x) && IsAscii(y) && z.sid == sid + Ascii(x) + Ascii(y)
    ensures Suffixed(z, sid, x + y)
  {
  }

  /** The session ids of the factors of one triple. */
  lemma FactorSuffixes(sid: bytes, t: nat, x: string)
    requires IsAscii(x)
    ensures Suffixed(Triples.AlphaSession(sid + Ascii(x), t), sid, x + "/alpha")
    ensures Suffixed(Triples.BetaSession(sid + Ascii(x), t), sid, x + "/beta")
  {
    hide Suffixed;
    hide Ascii;
    assert IsAscii("/alpha") && IsAscii("/beta");
    hide IsAscii;
    Extended(sid, x, "/alpha", Triples.AlphaSession(sid + Ascii(x), t));
    Extended(sid, x, "/beta", Triples.BetaSession(sid + Ascii(x), t));
  }

  lemma TripleTexts()
    ensures IsAscii("/t1") && IsAscii("/t2")
    ensures "/t1" + "/alpha" == RUN_SUFFIXES[0] && "/t1" + "/beta" == RUN_SUFFIXES[1]
    ensures "/t2" + "/alpha" == RUN_SUFFIXES[2] && "/t2" + "/beta" == RUN_SUFFIXES[3]
  {
  }

  lemma MaskSuffixes(sid: bytes, t: nat)
    ensures Suffixed(EndToEnd.USession(sid, t), sid, RUN_SUFFIXES[4])
    ensures Suffixed(EndToEnd.ASession(sid, t), sid, RUN_SUFFIXES[5])
  {
  }

  lemma RunSuffixes(sid: bytes, t: nat, a: nat)
    requires a < 6
    ensures Suffixed(RunSessions(sid, t)[a], sid, RUN_SUFFIXES[a])
  {
    hide Suffixed;
    hide Ascii;
    hide IsAscii;
    TripleTexts();
    FactorSuffixes(sid, t, "/t1");
    FactorSuffixes(sid, t, "/t2");
    MaskSuffixes(sid, t);
  }

  lemma PackedSuffixes(sid: bytes, len: nat, a: nat)
    requires a < 3
    ensures Suffixed(PackedSessions(sid, len)[a], sid, PACKED_SUFFIXES[a])
  {
  }

  lemma RunSuffixesApart(a: nat, b: nat)
    requires a < 6 && b < 6 && a != b
    ensures Apart(RUN_SUFFIXES[a], RUN_SUFFIXES[b])
  {
    var x, y := RUN_SUFFIXES[a], RUN_SUFFIXES[b];
    if a < 4 && b < 4 {
      assert DifferAt(x, y, 2) || DifferAt(x, y, 4);
    } else {
      assert DifferAt(x, y, 1);
    }
  }

  lemma PackedSuffixesApart(a: nat, b: nat)
    requires a < 3 && b < 3 && a != b
    ensures Apart(PACKED_SUFFIXES[a], PACKED_SUFFIXES[b])
  {
    var x, y := PACKED_SUFFIXES[a], PACKED_SUFFIXES[b];
    assert DifferAt(x, y, 1) || DifferAt(x, y, 2);
  }

  /** Hashes of sessions with different suffixes differ, whoever made them over whatever. */
  lemma HashesDiffer(sid: bytes, z: Session, y: Session, x: string, w: string, i: nat, p: seq<Poly>, j: nat,
                     q: seq<Poly>)
    requires z.tag == y.tag && Suffixed(z, sid, x) && Suffixed(y, sid, w) && Apart(x, w)
    ensures HashCommitments(z.sid, z.tag, i, p) != HashCommitments(y.sid, y.tag, j, q)
  {
    var k: nat :| DifferAt(x, w, k);
    var at := |z.tag| + |sid| + k;
    var c, d := BigEndian(i, 8) + Points(Flatten(p)), BigEndian(j, 8) + Points(Flatten(q));
    var f := z.tag + z.sid + BigEndian(i, 8) + Points(Flatten(p));
    var g := y.tag + y.sid + BigEndian(j, 8) + Points(Flatten(q));
    assert f == z.tag + (z.sid + c) && g == y.tag + (y.sid + d);
    assert f[at] == z.sid[|sid| + k] && g[at] == y.sid[|sid| + k];
  }

  /** The hash is some party's for the given session, over anything. */
  ghost predicate MadeFor(z: Session, h: bytes) {
    exists j: nat, q: seq<Poly> :: h == HashCommitments(z.sid, z.tag, j, q)
  }

  /** In a run, a dealer that publishes a hash made for another of the six dealings cannot open it,
      and is the one to be blamed. */
  lemma RunSeparate(sid: bytes, t: nat, a: nat, b: nat, m: Inbox, me: nat, i: nat)
    requires a < 6 && b < 6 && a != b && Answered(m, i) && MadeFor(RunSessions(sid, t)[b], m.r1[i])
    ensures var z := RunSessions(sid, t)[a];
      && z.count == 1 && z.polyLen == t
      && !Revealed(z, m, i) && forall who :: Culprit(z, m, me, i, who) <==> who == i
  {
    hide HashCommitments;
    var z, y := RunSessions(sid, t)[a], RunSessions(sid, t)[b];
    var j: nat, q: seq<Poly> :| m.r1[i] == HashCommitments(y.sid, y.tag, j, q);
    RunSuffixes(sid, t, a);
    RunSuffixes(sid, t, b);
    RunSuffixesApart(a, b);
    HashesDiffer(sid, z, y, RUN_SUFFIXES[a], RUN_SUFFIXES[b], i, m.r2[i], j, q);
  }

  /** The same for the three dealings of a packed run. */
  lemma PackedSeparate(sid: bytes, len: nat, a: nat, b: nat, m: Inbox, me: nat, i: nat)
    requires a < 3 && b < 3 && a != b && Answered(m, i) && MadeFor(PackedSessions(sid, len)[b], m.r1[i])
    ensures var z := PackedSessions(sid, len)[a];
      && z.count == (if a < 2 then 2 else 3) && z.polyLen == len
      && !Revealed(z, m, i) && forall who :: Culprit(z, m, me, i, who) <==> who == i
  {
    hide HashCommitments;
    var z, y := PackedSessions(sid, len)[a], PackedSessions(sid, len)[b];
    var j: nat, q: seq<Poly> :| m.r1[i] == HashCommitments(y.sid, y.tag, j, q);
    PackedSuffixes(sid, len, a);
    PackedSuffixes(sid, len, b);
    PackedSuffixesApart(a, b);
    HashesDiffer(sid, z, y, PACKED_SUFFIXES[a], PACKED_SUFFIXES[b], i, m.r2[i], j, q);
  }

  // ---------------------------------------------------------------- domain separation

  /** The tags that go into hashes and signatures. */
  ghost function Tags(): (r: seq<bytes>)
    ensures |r| == 8
  {
    [Triples.DKG_COMMIT, TriplesBatch.DKG_BATCH_COMMIT, Triples.DKG_PACKED_COMMIT, Triples.TRIPLE_PRODUCT,
     TriplesBatch.DLEQ_BATCH_RHO, Refresh.REFRESH_COMMIT, Refresh.RESHARE_COMMIT, Wire.TRANSPORT_SIGN]
  }

  /** The characters in which the tags differ. */
  ghost predicate Marked(tag: bytes, a: char, b: char, c: char, d: char) {
    && |tag| >= 20 && tag[15] as int == a as int && tag[16] as int == b as int
    && tag[17] as int == c as int && tag[19] as int == d as int
  }

  lemma DkgTag()
    ensures Marked(Triples.DKG_COMMIT, 'd', 'k', 'g', 'c')
  {
  }

  lemma BatchTag()
    ensures Marked(TriplesBatch.DKG_BATCH_COMMIT, 'd', 'k', 'g', 'b')
  {
  }

  lemma PackedTag()
    ensures Marked(Triples.DKG_PACKED_COMMIT, 'd', 'k', 'g', 'p')
  {
  }

  lemma ProductTag()
    ensures Marked(Triples.TRIPLE_PRODUCT, 't', 'r', 'i', 'l')
  {
  }

  lemma RhoTag()
    ensures Marked(TriplesBatch.DLEQ_BATCH_RHO, 'd', 'l', 'e', '-')
  {
  }

  lemma RefreshTag()
    ensures Marked(Refresh.REFRESH_COMMIT, 'r', 'e', 'f', 'e')
  {
  }

  lemma ReshareTag()
    ensures Marked(Refresh.RESHARE_COMMIT, 'r', 'e', 's', 'a')
  {
  }

  lemma TransportTag()
    ensures Marked(Wire.TRANSPORT_SIGN, 't', 'r', 'a', 's')
  {
  }

  /** Texts hashed or signed under different tags never coincide, whatever follows the tags. */
  lemma DomainsApart(a: nat, b: nat, x: bytes, y: bytes)
    requires a < 8 && b < 8 && a != b
    ensures Tags()[a] + x != Tags()[b] + y && HASH(Tags()[a] + x) != HASH(Tags()[b] + y)
  {
    hide Ascii;
    DkgTag();
    BatchTag();
    PackedTag();
    ProductTag();
    RhoTag();
    RefreshTag();
    ReshareTag();
    TransportTag();
    var s, t := Tags()[a] + x, Tags()[b] + y;
    assert s[15] != t[15] || s[16] != t[16] || s[17] != t[17] || s[19] != t[19];
  }
}
