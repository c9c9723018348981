/** One mesh node (node/src/net/mesh.rs): the receive path with the first-echo rule, and the send
    journal that is replayed to a peer after a reconnect. */
module Mesh {
  import opened Bytes
  import opened Wire
  import opened Framing
  import opened Acceptance
  import opened EchoBroadcast

  /** The session a message belongs to. */
  function SidOf(m: WireMessage): bytes {
    m.Carried().envelope.sid
  }

  /** The message is an original of the session, or an echo of one. */
  ghost predicate InSession(m: WireMessage, sid: bytes) {
    match m
    case Original(se) => se.envelope.sid == sid
    case Echo(_, original, _) => original.envelope.sid == sid
  }

  /** Its session starts with the prefix. */
  ghost predicate Under(m: WireMessage, prefix: bytes) {
    match m
    case Original(se) => prefix <= se.envelope.sid
    case Echo(_, original, _) => prefix <= original.envelope.sid
  }

  /** The checks on a received message besides its signatures: only broadcasts are echoed, and
      nobody echoes its own. */
  predicate Regular(m: WireMessage) {
    match m
    case Original(_) => true
    case Echo(e, original, _) => e != original.envelope.from && original.envelope.to.None?
  }

  // ---------------------------------------------------------------- the journal

  /** The messages of one session, in order. */
  ghost function Only(ms: seq<WireMessage>, sid: bytes): seq<WireMessage> {
    if ms == [] then []
    else
      var n := |ms| - 1;
      Only(ms[..n], sid) + (if InSession(ms[n], sid) then [ms[n]] else [])
  }

  /** The messages of the sessions that do not start with the prefix. */
  ghost function Unretired(ms: seq<WireMessage>, prefix: bytes): seq<WireMessage> {
    if ms == [] then []
    else
      var n := |ms| - 1;
      Unretired(ms[..n], prefix) + (if Under(ms[n], prefix) then [] else [ms[n]])
  }

  type Journal = map<bytes, seq<WireMessage>>

  function Entry(j: Journal, sid: bytes): seq<WireMessage> {
    if sid in j then j[sid] else []
  }

  /** The journal holds exactly the live messages, per session and in order. */
  ghost predicate Keeps(j: Journal, live: seq<WireMessage>) {
    forall sid :: Entry(j, sid) == Only(live, sid)
  }

  lemma OnlySnoc(ms: seq<WireMessage>, m: WireMessage, sid: bytes)
    ensures Only(ms + [m], sid) == Only(ms, sid) + (if SidOf(m) == sid then [m] else [])
  {
    assert (ms + [m])[..|ms|] == ms;
  }

  lemma JournalOneMore(j: Journal, live: seq<WireMessage>, m: WireMessage)
    requires Keeps(j, live)
    ensures Keeps(j[SidOf(m) := Entry(j, SidOf(m)) + [m]], live + [m])
  {
    hide Only;
    hide SidOf;
    var s := SidOf(m);
    var j' := j[s := Entry(j, s) + [m]];
    forall sid
      ensures Entry(j', sid) == Only(live + [m], sid)
    {
      OnlySnoc(live, m, sid);
      assert Entry(j, sid) == Only(live, sid);
    }
  }

  lemma {:induction false} OnlyUnretired(ms: seq<WireMessage>, prefix: bytes, sid: bytes)
    ensures Only(Unretired(ms, prefix), sid) == if prefix <= sid then [] else Only(ms, sid)
    decreases |ms|
  {
    if ms != [] {
      var n := |ms| - 1;
      OnlyUnretired(ms[..n], prefix, sid);
      var kept := Unretired(ms[..n], prefix);
      if prefix <= SidOf(ms[n]) {
        assert kept + [] == kept;
      } else {
        OnlySnoc(kept, ms[n], sid);
      }
    }
  }

  lemma {:induction false} OnlyMembers(ms: seq<WireMessage>, sid: bytes)
    ensures forall m :: m in Only(ms, sid) <==> m in ms && SidOf(m) == sid
    decreases |ms|
  {
    if ms != [] {
      var n := |ms| - 1;
      OnlyMembers(ms[..n], sid);
      assert ms == ms[..n] + [ms[n]];
    }
  }

  // ---------------------------------------------------------------- the node

  /** What handling a message may change. */
  datatype Memory = Memory(echoed: set<Slot>, inbox: seq<Received>, live: seq<WireMessage>)

  /** The slot of the value has an echo already. */
  ghost predicate Marked(echoed: set<Slot>, e: Envelope) {
    Slot(e.sid, e.phase, e.round, e.from) in echoed
  }

  /** The first-echo rule: what node `me` does with a message, given the outcome of the signature
      checks and the signature its own echo would bear. */
  ghost predicate Handled(m: WireMessage, authentic: bool, signature: Signature, before: Memory, now: Memory, me: nat) {
    if !authentic then now == before
    else
      match m
      case Echo(echoer, original, _) =>
        if echoer == original.envelope.from || original.envelope.to != None then now == before
        else now == before.(inbox := before.inbox + [FromEcho(echoer, original)])
      case Original(se) =>
        var e := se.envelope;
        var plain := before.(inbox := before.inbox + [FromSender(se)]);
        if e.to == Some(me) || (e.to == None && Marked(before.echoed, e)) then now == plain
        else if e.to != None then now == before
        else
          now == Memory(before.echoed + {Slot(e.sid, e.phase, e.round, e.from)},
                        before.inbox + [FromEcho(me, se), FromSender(se)],
                        before.live + [Echo(me, se, signature)])
  }

  class Node {
    const id: nat
    var echoed: set<Slot>
    var journal: Journal
    /** Mailbox to the acceptor; the self-echo loopback is on. */
    var inbox: seq<Received>
    /** Everything sent in sessions that have not been retired. */
    ghost var live: seq<WireMessage>

    ghost predicate Valid()
      reads this
    {
      Keeps(journal, live)
    }

    constructor (me: nat)
      ensures Valid() && id == me && echoed == {} && inbox == [] && live == []
    {
      id, echoed, journal, inbox, live := me, {}, map[], [], [];
    }

    /** `journal_push`, before the write is attempted. */
    method Send(m: WireMessage)
      requires Valid()
      modifies this`journal, this`live
      ensures Valid() && live == old(live) + [m]
    {
      hide Keeps;
      JournalOneMore(journal, live, m);
      journal := journal[SidOf(m) := Entry(journal, SidOf(m)) + [m]];
      live := live + [m];
    }

    /** `retire_session`: drop the session and everything derived from it. */
    method RetireSession(prefix: bytes)
      requires Valid()
      modifies this`journal, this`live
      ensures Valid() && live == Unretired(old(live), prefix)
    {
      forall sid ensures Only(Unretired(live, prefix), sid) == if prefix <= sid then [] else Only(live, sid) {
        OnlyUnretired(live, prefix, sid);
      }
      assert forall sid :: Entry(journal, sid) == Only(live, sid);
      journal := map sid | sid in journal && !(prefix <= sid) :: journal[sid];
      live := Unretired(live, prefix);
    }

    /** `resend_journal`: everything live, session by session and in order within each. */
    method Resend() returns (ms: seq<WireMessage>)
      requires Valid()
      ensures forall m :: m in ms <==> m in live
      ensures forall sid :: Only(ms, sid) == Only(live, sid)
    {
      hide Only;
      hide SidOf;
      ms := [];
      var rest := journal.Keys;
      NothingResent(journal);
      while rest != {}
        invariant rest <= journal.Keys && Resent(journal, rest, ms)
        decreases |rest|
      {
        var next :| next in rest;
        ResendOne(journal, live, rest, ms, next);
        ms := ms + journal[next];
        rest := rest - {next};
      }
      ResentAll(journal, live, ms);
    }

    /** `handle`: verified messages reach the mailbox, the first broadcast of a slot is echoed.
        `authentic` is the outcome of the signature checks, `signature` the echo's signature. */
    method Handle(m: WireMessage, authentic: bool, signature: Signature)
      requires Valid()
      modifies this
      ensures Valid()
      ensures Handled(m, authentic, signature, old(Memory(echoed, inbox, live)), Memory(echoed, inbox, live), id)
    {
      if !authentic || !Regular(m) {
        return;
      }
      match m {
        case Original(se) =>
          if se.envelope.to.Some? {
            if se.envelope.to.value != id {
              return;
            }
          } else {
            var slot := SlotOf(se);
            var first := slot !in echoed;
            echoed := echoed + {slot};
            if first {
              Send(Echo(id, se, signature));
              inbox := inbox + [FromEcho(id, se)];
            }
          }
          inbox := inbox + [FromSender(se)];
        case Echo(echoer, original, _) =>
          inbox := inbox + [FromEcho(echoer, original)];
      }
    }
  }

  /** The sessions outside `rest` have been replayed, the others not. */
  ghost predicate Resent(j: Journal, rest: set<bytes>, ms: seq<WireMessage>) {
    forall sid :: Only(ms, sid) == if sid in rest then [] else Entry(j, sid)
  }

  lemma NothingResent(j: Journal)
    ensures Resent(j, j.Keys, [])
  {
  }

  lemma ResendOne(j: Journal, live: seq<WireMessage>, rest: set<bytes>, ms: seq<WireMessage>, next: bytes)
    requires Keeps(j, live) && rest <= j.Keys && next in rest && Resent(j, rest, ms)
    ensures Resent(j, rest - {next}, ms + j[next])
  {
    hide Only;
    assert Entry(j, next) == Only(live, next);
    OnlyMembers(live, next);
    forall sid
      ensures Only(ms + j[next], sid) == if sid in rest - {next} then [] else Entry(j, sid)
    {
      OneSession(ms, j[next], next, sid);
    }
  }

  lemma ResentAll(j: Journal, live: seq<WireMessage>, ms: seq<WireMessage>)
    requires Keeps(j, live) && Resent(j, {}, ms)
    ensures forall sid :: Only(ms, sid) == Only(live, sid)
    ensures forall m :: m in ms <==> m in live
  {
    hide Only;
    forall sid ensures Only(ms, sid) == Only(live, sid) { assert Entry(j, sid) == Only(live, sid); }
    forall m
      ensures m in ms <==> m in live
    {
      OnlyMembers(ms, SidOf(m));
      OnlyMembers(live, SidOf(m));
    }
  }

  lemma {:induction false} OneSession(ms: seq<WireMessage>, more: seq<WireMessage>, sid: bytes, other: bytes)
    requires forall m :: m in more ==> SidOf(m) == sid
    ensures Only(ms + more, other) == Only(ms, other) + (if other == sid then more else [])
    decreases |more|
  {
    hide Only;
    hide SidOf;
    if more == [] {
      assert ms + more == ms;
      assert Only(ms, other) + [] == Only(ms, other);
    } else {
      var n := |more| - 1;
      forall m | m in more[..n] ensures SidOf(m) == sid { assert m in more; }
      assert more[n] in more;
      OneSession(ms, more[..n], sid, other);
      assert ms + more == ms + more[..n] + [more[n]];
      OnlySnoc(ms + more[..n], more[n], other);
      assert more == more[..n] + [more[n]];
      assert Only(ms, other) + more[..n] + [more[n]] == Only(ms, other) + more;
    }
  }

  /** A node whose mailbox and echo marks are those of the step system keeps in step with it:
      handling an enabled original or echo is the system's step, and the echo it sends, if any, is
      the one that the step records. */
  lemma HandleIsStep(u: Setup, s: State, me: nat, m: WireMessage, signature: Signature, before: Memory, now: Memory)
    requires Shaped(u, s) && me in u.honest && m.Carried().envelope.to.None?
    requires before.inbox == s.logs[me] && before.echoed == s.echoed[me]
    requires Handled(m, true, signature, before, now, me)
    requires match m
             case Original(se) => Enabled(u, s, GetOriginal(me, se))
             case Echo(e, original, _) => Enabled(u, s, GetEcho(me, e, original))
    ensures var s' := match m
                      case Original(se) => Apply(u, s, GetOriginal(me, se))
                      case Echo(e, original, _) => Apply(u, s, GetEcho(me, e, original));
      && s'.logs[me] == now.inbox && s'.echoed[me] == now.echoed
      && (now.live == before.live ==> s'.echoes == s.echoes)
      && (now.live != before.live ==>
            now.live == before.live + [Echo(me, m.Carried(), signature)] && s'.echoes == s.echoes + {(me, m.Carried())})
  {
    hide SignedEnvelope.Fits;
  }

  /** Replaying a journal delivers nothing that was not delivered, or due, before: a mailbox that
      already holds a peer's messages accepts the same values after the replay. */
  lemma ReplayChangesNothing(inbox: seq<Received>, replay: seq<Received>, quorum: nat, se: SignedEnvelope)
    requires forall r :: r in replay ==> r in inbox
    ensures Accepts(inbox + replay, quorum, se) <==> Accepts(inbox, quorum, se)
  {
    OnlyTheSetMatters(inbox + replay, inbox, quorum, se);
  }
}
