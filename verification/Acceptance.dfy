/** The echo-broadcast acceptor (node/src/net/transport.rs): its mutable maps, and the set-based
    meaning of what it accepts. */
module Acceptance {
  import opened Bytes
  import opened Wire
  import opened Committees
  import opened IdLists

  /** A verified message from the mesh. */
  datatype Received = FromSender(se: SignedEnvelope) | FromEcho(echoer: nat, original: SignedEnvelope) {
    function Carried(): SignedEnvelope {
      match this case FromSender(se) => se case FromEcho(_, original) => original
    }

    /** The message bears a broadcast value. */
    predicate IsCandidate() {
      FromEcho? || se.envelope.to.None?
    }
  }

  datatype Slot = Slot(sid: bytes, phase: Phase, round: byte, from: nat)

  function SlotOf(se: SignedEnvelope): Slot {
    Slot(se.envelope.sid, se.envelope.phase, se.envelope.round, se.envelope.from)
  }

  /** One sender's values for one session, phase and round. */
  ghost predicate SameSlot(a: SignedEnvelope, b: SignedEnvelope) {
    && a.envelope.sid == b.envelope.sid && a.envelope.phase == b.envelope.phase
    && a.envelope.round == b.envelope.round && a.envelope.from == b.envelope.from
  }

  // ---------------------------------------------------------------- meaning

  /** A message received so far bears this signed value. */
  ghost predicate Seen(log: seq<Received>, se: SignedEnvelope) {
    exists m :: m in log && m.IsCandidate() && m.Carried() == se
  }

  /** Everyone but the sender that echoed the value. */
  ghost function Echoers(log: seq<Received>, se: SignedEnvelope): set<nat> {
    set m | m in log && m.FromEcho? && m.original == se && m.echoer != se.envelope.from :: m.echoer
  }

  ghost predicate Conflict(log: seq<Received>, se: SignedEnvelope, other: SignedEnvelope) {
    Seen(log, se) && Seen(log, other) && se != other && SameSlot(se, other)
  }

  /** In some slot of this session the sender signed two values. */
  ghost predicate Equivocates(log: seq<Received>, sid: bytes, from: nat) {
    exists se, other :: Conflict(log, se, other) && se.envelope.sid == sid && se.envelope.from == from
  }

  /** The value is accepted: seen, enough echoes, and no equivocation by its sender. */
  ghost predicate Accepts(log: seq<Received>, quorum: nat, se: SignedEnvelope) {
    Seen(log, se) && |Echoers(log, se)| >= quorum && !Equivocates(log, se.envelope.sid, se.envelope.from)
  }

  /** A value is seen as a broadcast original or in anybody's echo. */
  lemma SeenIs(log: seq<Received>, se: SignedEnvelope)
    ensures Seen(log, se) <==> (se.envelope.to == None && FromSender(se) in log) || exists e :: FromEcho(e, se) in log
  {
    if m :| m in log && m.IsCandidate() && m.Carried() == se {
      assert m == FromSender(se) || m == FromEcho(m.echoer, se);
    }
    if se.envelope.to == None && FromSender(se) in log {
      assert FromSender(se).IsCandidate() && FromSender(se).Carried() == se;
    }
    if e :| FromEcho(e, se) in log {
      assert FromEcho(e, se).IsCandidate() && FromEcho(e, se).Carried() == se;
    }
  }

  ghost predicate AllFit(log: seq<Received>) {
    forall m :: m in log ==> m.Carried().Fits()
  }

  /** Only the set of messages matters: order, repetition and re-delivery change nothing. */
  lemma OnlyTheSetMatters(log: seq<Received>, log': seq<Received>, quorum: nat, se: SignedEnvelope)
    requires forall m :: m in log <==> m in log'
    ensures Accepts(log, quorum, se) <==> Accepts(log', quorum, se)
    ensures Equivocates(log, se.envelope.sid, se.envelope.from) <==>
      Equivocates(log', se.envelope.sid, se.envelope.from)
  {
    forall x ensures Seen(log, x) <==> Seen(log', x) {}
    assert Echoers(log, se) == Echoers(log', se);
    forall x, y ensures Conflict(log, x, y) <==> Conflict(log', x, y) {}
  }

  lemma MoreIsSeen(log: seq<Received>, more: seq<Received>)
    requires forall m :: m in log ==> m in more
    ensures forall se :: Seen(log, se) ==> Seen(more, se)
    ensures forall se :: Echoers(log, se) <= Echoers(more, se)
    ensures forall sid, from :: Equivocates(log, sid, from) ==> Equivocates(more, sid, from)
  {
    forall x ensures Seen(log, x) ==> Seen(more, x) {}
    forall x, y ensures Conflict(log, x, y) ==> Conflict(more, x, y) {}
  }

  /** In one state at most one value per slot is accepted. */
  lemma OneValue(log: seq<Received>, quorum: nat, se: SignedEnvelope, other: SignedEnvelope)
    requires Accepts(log, quorum, se) && Accepts(log, quorum, other) && SameSlot(se, other)
    ensures se == other
  {
    assert se != other ==> Conflict(log, se, other);
  }

  /** As messages arrive a slot goes from nothing to a value to nothing, and never from one value
      to another: once accepted, a value can only be withdrawn, by equivocation, for good. */
  lemma NeverAnotherValue(log: seq<Received>, more: seq<Received>, quorum: nat, se: SignedEnvelope,
                          other: SignedEnvelope)
    requires forall m :: m in log ==> m in more
    requires Accepts(log, quorum, se) && SameSlot(se, other)
    ensures Accepts(more, quorum, other) ==> other == se
    ensures Accepts(more, quorum, se) || Equivocates(more, se.envelope.sid, se.envelope.from)
    ensures Equivocates(more, se.envelope.sid, se.envelope.from) ==> !Accepts(more, quorum, other)
  {
    MoreIsSeen(log, more);
    SubsetSize(Echoers(log, se), Echoers(more, se));
    if Accepts(more, quorum, other) && other != se {
      assert Conflict(more, se, other);
    }
  }

  // ---------------------------------------------------------------- one more message

  lemma SeenSnoc(log: seq<Received>, m: Received)
    ensures forall se :: Seen(log + [m], se) <==> Seen(log, se) || (m.IsCandidate() && m.Carried() == se)
  {
    forall se
      ensures Seen(log + [m], se) <==> Seen(log, se) || (m.IsCandidate() && m.Carried() == se)
    {
      if m.IsCandidate() && m.Carried() == se {
        assert m in log + [m];
      }
    }
  }

  lemma EchoersSnoc(log: seq<Received>, m: Received, se: SignedEnvelope)
    ensures Echoers(log + [m], se) == Echoers(log, se)
      + (if m.FromEcho? && m.original == se && m.echoer != se.envelope.from then {m.echoer} else {})
  {
    if m.FromEcho? && m.original == se && m.echoer != se.envelope.from {
      assert m in log + [m];
    }
  }

  /** A new message makes its sender an equivocator exactly if its slot already has another value. */
  lemma EquivocatesSnoc(log: seq<Received>, m: Received, sid: bytes, from: nat)
    ensures Equivocates(log + [m], sid, from) <==>
      Equivocates(log, sid, from)
      || (m.IsCandidate() && m.Carried().envelope.sid == sid && m.Carried().envelope.from == from
          && HasOther(log, m.Carried()))
  {
    SeenSnoc(log, m);
    var se := m.Carried();
    if Equivocates(log + [m], sid, from) {
      var a, b :| Conflict(log + [m], a, b) && a.envelope.sid == sid && a.envelope.from == from;
      if Seen(log, a) && Seen(log, b) {
        assert Conflict(log, a, b);
      } else if Seen(log, b) {
        assert Other(log, se, b);
      } else {
        assert Other(log, se, a);
      }
    }
    if Equivocates(log, sid, from) {
      var a, b :| Conflict(log, a, b) && a.envelope.sid == sid && a.envelope.from == from;
      assert Conflict(log + [m], a, b);
    }
    if m.IsCandidate() && se.envelope.sid == sid && se.envelope.from == from && HasOther(log, se) {
      var b :| Other(log, se, b);
      assert Conflict(log + [m], se, b);
    }
  }

  ghost predicate Other(log: seq<Received>, se: SignedEnvelope, other: SignedEnvelope) {
    Seen(log, other) && other != se && SameSlot(other, se)
  }

  ghost predicate HasOther(log: seq<Received>, se: SignedEnvelope) {
    exists other :: Other(log, se, other)
  }

  // ---------------------------------------------------------------- the acceptor

  datatype Candidate = Candidate(env: SignedEnvelope, echoers: set<nat>)

  type Slots = map<Slot, map<bytes, Candidate>>

  /** The candidate map of a slot holds exactly the values seen there, with their echoers. */
  ghost predicate SlotReflects(bcast: Slots, log: seq<Received>, slot: Slot) {
    && (slot in bcast ==>
         |bcast[slot]| <= 1 && forall p :: p in bcast[slot] ==> CandidateReflects(bcast[slot][p], log, slot, p))
    && forall se :: Seen(log, se) && SlotOf(se) == slot ==> slot in bcast && EncodeSigned(se) in bcast[slot]
  }

  ghost predicate CandidateReflects(c: Candidate, log: seq<Received>, slot: Slot, p: bytes) {
    Seen(log, c.env) && SlotOf(c.env) == slot && p == EncodeSigned(c.env) && c.echoers == Echoers(log, c.env)
  }

  /** The fields of the acceptor mean the messages processed so far.  Slots of a poisoned sender
      are frozen and never read again. */
  ghost predicate Reflects(bcast: Slots, equivocated: set<(bytes, nat)>, log: seq<Received>) {
    && AllFit(log)
    && (forall sid: bytes, from: nat :: (sid, from) in equivocated <==> Equivocates(log, sid, from))
    && forall slot: Slot :: (slot.sid, slot.from) !in equivocated ==> SlotReflects(bcast, log, slot)
  }

  lemma EncodingDistinguishes(a: SignedEnvelope, b: SignedEnvelope)
    requires a.Fits() && b.Fits() && EncodeSigned(a) == EncodeSigned(b)
    ensures a == b
  {
    hide EncodeSigned;
    hide DecodeSigned;
    SignedRoundTrip(a, []);
    SignedRoundTrip(b, []);
  }

  lemma SeenFits(log: seq<Received>, se: SignedEnvelope)
    requires AllFit(log) && Seen(log, se)
    ensures se.Fits()
  {
  }

  /** `insert_candidate` on the candidate maps. */
  function Inserted(bcast: Slots, slot: Slot, payload: bytes, env: SignedEnvelope): (r: Slots)
    ensures slot in r && payload in r[slot]
  {
    var ps := if slot in bcast then bcast[slot] else map[];
    bcast[slot := if payload in ps then ps else ps[payload := Candidate(env, {})]]
  }

  function Credited(bcast: Slots, slot: Slot, payload: bytes, echoer: nat): Slots
    requires slot in bcast && payload in bcast[slot]
  {
    var c := bcast[slot][payload];
    bcast[slot := bcast[slot][payload := c.(echoers := c.echoers + {echoer})]]
  }

  function Poisoned(equivocated: set<(bytes, nat)>, bcast: Slots, slot: Slot): set<(bytes, nat)>
    requires slot in bcast
  {
    if |bcast[slot]| == 2 then equivocated + {(slot.sid, slot.from)} else equivocated
  }

  /** The candidate maps after an accepted message. */
  function AfterMessage(bcast: Slots, m: Received): Slots {
    var se := m.Carried();
    var slot, p := SlotOf(se), EncodeSigned(se);
    var b := Inserted(bcast, slot, p, se);
    if m.FromEcho? && m.echoer != slot.from then Credited(b, slot, p, m.echoer) else b
  }

  lemma OtherSlotsKeep(bcast: Slots, bcast': Slots, log: seq<Received>, m: Received, slot: Slot)
    requires SlotReflects(bcast, log, slot) && (!m.IsCandidate() || SlotOf(m.Carried()) != slot)
    requires (slot in bcast <==> slot in bcast') && (slot in bcast ==> bcast[slot] == bcast'[slot])
    ensures SlotReflects(bcast', log + [m], slot)
  {
    hide EncodeSigned;
    SeenSnoc(log, m);
    if slot in bcast {
      forall p | p in bcast[slot]
        ensures CandidateReflects(bcast[slot][p], log + [m], slot, p)
      {
        EchoersSnoc(log, m, bcast[slot][p].env);
      }
    }
  }

  /** Messages that the acceptor drops: point-to-point ones, and those of poisoned senders. */
  lemma DroppedReflects(bcast: Slots, equivocated: set<(bytes, nat)>, log: seq<Received>, m: Received)
    requires Reflects(bcast, equivocated, log) && m.Carried().Fits()
    requires !m.IsCandidate() || (m.Carried().envelope.sid, m.Carried().envelope.from) in equivocated
    ensures Reflects(bcast, equivocated, log + [m])
  {
    hide EncodeSigned;
    hide SlotReflects;
    forall sid: bytes, from: nat
      ensures (sid, from) in equivocated <==> Equivocates(log + [m], sid, from)
    {
      EquivocatesSnoc(log, m, sid, from);
    }
    forall slot: Slot | (slot.sid, slot.from) !in equivocated
      ensures SlotReflects(bcast, log + [m], slot)
    {
      OtherSlotsKeep(bcast, bcast, log, m, slot);
    }
  }

  /** A slot of an honest-looking sender holds a second value exactly when the new one differs. */
  lemma SecondValue(bcast: Slots, log: seq<Received>, se: SignedEnvelope)
    requires AllFit(log) && se.Fits() && SlotReflects(bcast, log, SlotOf(se))
    requires !Equivocates(log, se.envelope.sid, se.envelope.from)
    ensures var b := Inserted(bcast, SlotOf(se), EncodeSigned(se), se);
      |b[SlotOf(se)]| == (if HasOther(log, se) then 2 else 1)
    ensures Seen(log, se) <==> SlotOf(se) in bcast && EncodeSigned(se) in bcast[SlotOf(se)]
  {
    hide EncodeSigned;
    var slot, p := SlotOf(se), EncodeSigned(se);
    if slot in bcast {
      var ps := bcast[slot];
      if p in ps {
        assert CandidateReflects(ps[p], log, slot, p);
        EncodingDistinguishes(ps[p].env, se);
        OnlyKey(ps, p);
        NoOther(log, se);
      } else if ps.Keys != {} {
        var q :| q in ps;
        assert CandidateReflects(ps[q], log, slot, q);
        assert Other(log, se, ps[q].env);
        assert |ps| == 1 by { OnlyKey(ps, q); }
      } else {
        assert |ps| == 0;
        forall other ensures !Other(log, se, other) {}
      }
    } else {
      forall other ensures !Other(log, se, other) {}
    }
  }

  lemma OnlyKey(ps: map<bytes, Candidate>, p: bytes)
    requires |ps| <= 1 && p in ps
    ensures |ps| == 1 && forall q :: q in ps ==> q == p
  {
    assert {p} <= ps.Keys;
    SubsetSize({p}, ps.Keys);
    if q :| q in ps && q != p {
      SubsetSize({p, q}, ps.Keys);
    }
  }

  lemma NoOther(log: seq<Received>, se: SignedEnvelope)
    requires Seen(log, se) && !Equivocates(log, se.envelope.sid, se.envelope.from)
    ensures !HasOther(log, se)
  {
    if other :| Other(log, se, other) {
      assert Conflict(log, se, other);
    }
  }

  /** The candidate of an accepted message, before and after crediting the echo. */
  lemma OwnCandidate(bcast: Slots, log: seq<Received>, m: Received)
    requires AllFit(log) && m.Carried().Fits() && m.IsCandidate() && SlotReflects(bcast, log, SlotOf(m.Carried()))
    requires Seen(log, m.Carried()) <==>
      SlotOf(m.Carried()) in bcast && EncodeSigned(m.Carried()) in bcast[SlotOf(m.Carried())]
    ensures var se := m.Carried();
      var slot, p, b' := SlotOf(se), EncodeSigned(se), AfterMessage(bcast, m);
      slot in b' && p in b'[slot] && b'[slot][p] == Candidate(se, Echoers(log + [m], se))
      && b'[slot].Keys == Inserted(bcast, slot, p, se)[slot].Keys
  {
    hide EncodeSigned;
    hide Echoers;
    var se := m.Carried();
    var slot, p := SlotOf(se), EncodeSigned(se);
    EchoersSnoc(log, m, se);
    if Seen(log, se) {
      assert CandidateReflects(bcast[slot][p], log, slot, p);
      EncodingDistinguishes(bcast[slot][p].env, se);
    } else {
      NobodyEchoed(log, se);
    }
  }

  /** The slot of an accepted message that poisons nobody. */
  lemma OwnSlotReflects(bcast: Slots, log: seq<Received>, m: Received)
    requires AllFit(log) && m.Carried().Fits() && m.IsCandidate() && SlotReflects(bcast, log, SlotOf(m.Carried()))
    requires !Equivocates(log, m.Carried().envelope.sid, m.Carried().envelope.from) && !HasOther(log, m.Carried())
    ensures SlotReflects(AfterMessage(bcast, m), log + [m], SlotOf(m.Carried()))
  {
    hide EncodeSigned;
    hide Echoers;
    var se := m.Carried();
    var slot, p := SlotOf(se), EncodeSigned(se);
    var b, b' := Inserted(bcast, slot, p, se), AfterMessage(bcast, m);
    SecondValue(bcast, log, se);
    OwnCandidate(bcast, log, m);
    hide SlotReflects;
    hide AfterMessage;
    hide Inserted;
    OnlyKey(b[slot], p);
    SeenSnoc(log, m);
    SingleCandidate(b', log + [m], slot, se);
    assert |b'[slot]| == |b'[slot].Keys| == |b[slot].Keys|;
    forall x | Seen(log + [m], x) && SlotOf(x) == slot
      ensures x == se
    {
      assert x != se ==> Other(log, se, x);
    }
    SlotReflectsIs(b', log + [m], slot, se);
  }

  lemma SingleCandidate(b: Slots, log: seq<Received>, slot: Slot, se: SignedEnvelope)
    requires slot in b && EncodeSigned(se) in b[slot] && b[slot][EncodeSigned(se)] == Candidate(se, Echoers(log, se))
    requires Seen(log, se) && SlotOf(se) == slot
    ensures CandidateReflects(b[slot][EncodeSigned(se)], log, slot, EncodeSigned(se))
  {
  }

  lemma SlotReflectsIs(b: Slots, log: seq<Received>, slot: Slot, se: SignedEnvelope)
    requires slot in b && |b[slot]| <= 1 && EncodeSigned(se) in b[slot]
    requires forall q :: q in b[slot] ==> q == EncodeSigned(se)
    requires CandidateReflects(b[slot][EncodeSigned(se)], log, slot, EncodeSigned(se))
    requires forall x :: Seen(log, x) && SlotOf(x) == slot ==> x == se
    ensures SlotReflects(b, log, slot)
  {
    hide EncodeSigned;
    hide CandidateReflects;
  }

  lemma NobodyEchoed(log: seq<Received>, se: SignedEnvelope)
    requires !Seen(log, se)
    ensures Echoers(log, se) == {}
  {
    forall m | m in log && m.FromEcho?
      ensures m.original != se
    {
      assert m.IsCandidate() && (m.Carried() == se ==> Seen(log, se));
    }
  }

  /** Processing a broadcast of a sender in good standing keeps the meaning of the fields. */
  lemma ProcessedReflects(bcast: Slots, equivocated: set<(bytes, nat)>, log: seq<Received>, m: Received)
    requires Reflects(bcast, equivocated, log) && m.Carried().Fits() && m.IsCandidate()
    requires (m.Carried().envelope.sid, m.Carried().envelope.from) !in equivocated
    ensures var se := m.Carried();
      var b := Inserted(bcast, SlotOf(se), EncodeSigned(se), se);
      Reflects(AfterMessage(bcast, m), Poisoned(equivocated, b, SlotOf(se)), log + [m])
  {
    hide EncodeSigned;
    hide SlotReflects;
    var se := m.Carried();
    var slot := SlotOf(se);
    var b, b' := Inserted(bcast, slot, EncodeSigned(se), se), AfterMessage(bcast, m);
    var eq := Poisoned(equivocated, b, slot);
    SecondValue(bcast, log, se);
    forall sid: bytes, from: nat
      ensures (sid, from) in eq <==> Equivocates(log + [m], sid, from)
    {
      EquivocatesSnoc(log, m, sid, from);
    }
    forall x: Slot | (x.sid, x.from) !in eq
      ensures SlotReflects(b', log + [m], x)
    {
      if x == slot {
        OwnSlotReflects(bcast, log, m);
      } else {
        OtherSlotsKeep(bcast, b', log, m, x);
      }
    }
  }

  // ---------------------------------------------------------------- point-to-point messages

  /** Session, phase, round and addressee. */
  datatype Address = Address(sid: bytes, phase: Phase, round: byte, to: nat)

  predicate SentTo(m: Received, a: Address, from: nat) {
    && m.FromSender? && m.se.envelope.to == Some(a.to) && m.se.envelope.from == from
    && m.se.envelope.sid == a.sid && m.se.envelope.phase == a.phase && m.se.envelope.round == a.round
  }

  /** The first message from this sender to this address, if any. */
  ghost function First(log: seq<Received>, a: Address, from: nat): Option<SignedEnvelope> {
    if log == [] then None
    else
      var n := |log| - 1;
      var before := First(log[..n], a, from);
      if before.Some? then before else if SentTo(log[n], a, from) then Some(log[n].se) else None
  }

  /** Later copies change nothing: the first message stays. */
  lemma FirstStays(log: seq<Received>, m: Received, a: Address, from: nat)
    ensures First(log, a, from).Some? ==> First(log + [m], a, from) == First(log, a, from)
    ensures First(log, a, from).None? ==> First(log + [m], a, from) == if SentTo(m, a, from) then Some(m.se) else None
  {
    assert (log + [m])[..|log|] == log;
  }

  type Mailboxes = map<Address, map<nat, SignedEnvelope>>

  function Lookup(p2p: Mailboxes, a: Address, from: nat): Option<SignedEnvelope> {
    if a in p2p && from in p2p[a] then Some(p2p[a][from]) else None
  }

  ghost predicate Delivers(p2p: Mailboxes, log: seq<Received>) {
    forall a: Address, from: nat :: Lookup(p2p, a, from) == First(log, a, from)
  }

  // ---------------------------------------------------------------- the object

  class Acceptor {
    const echoQuorum: nat
    var bcast: Slots
    var equivocated: set<(bytes, nat)>
    var p2p: Mailboxes
    /** Everything processed so far. */
    ghost var log: seq<Received>

    ghost predicate Valid()
      reads this
    {
      Reflects(bcast, equivocated, log) && Delivers(p2p, log)
    }

    constructor (t: nat)
      ensures Valid() && log == [] && echoQuorum == if t == 0 then 0 else t - 1
    {
      echoQuorum := if t == 0 then 0 else t - 1;
      bcast, equivocated, p2p, log := map[], {}, map[], [];
    }

    /** `insert_candidate`: on the second distinct payload the sender is poisoned. */
    method InsertCandidate(slot: Slot, payload: bytes, env: SignedEnvelope)
      modifies this`bcast, this`equivocated
      ensures bcast == Inserted(old(bcast), slot, payload, env)
      ensures equivocated == Poisoned(old(equivocated), bcast, slot)
    {
      var payloads := if slot in bcast then bcast[slot] else map[];
      if payload !in payloads {
        payloads := payloads[payload := Candidate(env, {})];
      }
      bcast := bcast[slot := payloads];
      if |payloads| == 2 {
        equivocated := equivocated + {(slot.sid, slot.from)};
      }
    }

    /** `process`. */
    method Process(msg: Received)
      requires Valid() && msg.Carried().Fits()
      modifies this
      ensures Valid() && log == old(log) + [msg]
    {
      hide Reflects;
      hide Delivers;
      hide EncodeSigned;
      hide Inserted;
      hide Credited;
      hide SignedEnvelope.Fits;
      ghost var before, boxes := bcast, p2p;
      var se := msg.Carried();
      if msg.FromSender? && msg.se.envelope.to.Some? {
        DroppedReflects(bcast, equivocated, log, msg);
        DeliversOne(p2p, log, msg);
        var e := se.envelope;
        var a := Address(e.sid, e.phase, e.round, e.to.value);
        var box := if a in p2p then p2p[a] else map[];
        if e.from !in box {
          box := box[e.from := se];
        }
        p2p := p2p[a := box];
        log := log + [msg];
        return;
      }
      DeliversNone(p2p, log, msg);
      var slot, payload := SlotOf(se), EncodeSigned(se);
      if (slot.sid, slot.from) in equivocated {
        DroppedReflects(bcast, equivocated, log, msg);
        log := log + [msg];
        return;
      }
      ProcessedReflects(bcast, equivocated, log, msg);
      InsertCandidate(slot, payload, se);
      if msg.FromEcho? && msg.echoer != slot.from {
        bcast := Credited(bcast, slot, payload, msg.echoer);
      }
      log := log + [msg];
    }

    /** `bcast_set`: exactly the accepted value of every listed member that has one. */
    method BcastSet(sid: bytes, phase: Phase, round: byte, ids: seq<nat>) returns (out: map<nat, SignedEnvelope>,
                    complete: bool)
      requires Valid()
      ensures forall id :: id in out ==> id in ids && AcceptedIn(log, echoQuorum, Slot(sid, phase, round, id), out[id])
      ensures forall id, se :: id in ids && AcceptedIn(log, echoQuorum, Slot(sid, phase, round, id), se) ==>
        id in out && out[id] == se
      ensures NoRepeats(ids) ==> (complete <==> forall id :: id in ids ==> id in out)
    {
      hide EncodeSigned;
      hide Reflects;
      hide Accepts;
      hide Delivers;
      out := map[];
      for k := 0 to |ids|
        invariant forall id :: id in out ==>
          id in ids[..k] && AcceptedIn(log, echoQuorum, Slot(sid, phase, round, id), out[id])
        invariant forall id, se :: id in ids[..k] && AcceptedIn(log, echoQuorum, Slot(sid, phase, round, id), se) ==>
          id in out && out[id] == se
      {
        var id := ids[k];
        assert ids[..k + 1] == ids[..k] + [id];
        var slot := Slot(sid, phase, round, id);
        var found := FindAccepted(slot);
        if found.Some? {
          out := out[id := found.value];
        }
      }
      assert ids[..|ids|] == ids;
      assert NoRepeats(ids) ==> (|out| == |ids| <==> forall id :: id in ids ==> id in out) by {
        if NoRepeats(ids) {
          KeysComplete(out.Keys, ids);
        }
      }
      complete := |out| == |ids|;
    }

    /** The slot's candidate with enough echoes, unless the sender is poisoned. */
    method FindAccepted(slot: Slot) returns (r: Option<SignedEnvelope>)
      requires Valid()
      ensures r.Some? ==> AcceptedIn(log, echoQuorum, slot, r.value)
      ensures forall se :: AcceptedIn(log, echoQuorum, slot, se) ==> r == Some(se)
    {
      hide EncodeSigned;
      hide Delivers;
      hide SignedEnvelope.Fits;
      hide Echoers;
      hide Conflict;
      hide Seen;
      if (slot.sid, slot.from) in equivocated || slot !in bcast {
        return None;
      }
      assert SlotReflects(bcast, log, slot);
      var rest := bcast[slot].Keys;
      while rest != {}
        invariant rest <= bcast[slot].Keys
        invariant forall p :: p in bcast[slot] && p !in rest ==> |bcast[slot][p].echoers| < echoQuorum
      {
        var p :| p in rest;
        assert CandidateReflects(bcast[slot][p], log, slot, p);
        if |bcast[slot][p].echoers| >= echoQuorum {
          FoundOnly(bcast, log, echoQuorum, slot, p);
          return Some(bcast[slot][p].env);
        }
        rest := rest - {p};
      }
      NotFound(bcast, log, echoQuorum, slot);
      return None;
    }

    /** `p2p_set`: the first message of every sender to this address. */
    method P2pSet(a: Address, ids: seq<nat>) returns (out: map<nat, SignedEnvelope>, complete: bool)
      requires Valid()
      ensures forall from: nat, se :: from in out && out[from] == se <==> First(log, a, from) == Some(se)
      ensures complete <==> forall k :: 0 <= k < |ids| ==> First(log, a, ids[k]).Some?
    {
      hide Reflects;
      out := if a in p2p then p2p[a] else map[];
      forall from: nat
        ensures First(log, a, from) == if from in out then Some(out[from]) else None
      {
        assert Lookup(p2p, a, from) == First(log, a, from);
      }
      complete := forall k :: 0 <= k < |ids| ==> ids[k] in out;
    }
  }

  /** With distinct ids, as many entries as ids means an entry for each. */
  lemma KeysComplete(keys: set<nat>, ids: seq<nat>)
    requires NoRepeats(ids) && keys <= Members(ids)
    ensures |keys| == |ids| <==> Members(ids) <= keys
  {
    hide Members;
    var all := Members(ids);
    DistinctCount(ids);
    assert all == keys + (all - keys);
    assert all <= keys ==> all == keys;
    assert |all - keys| == 0 ==> all - keys == {};
  }

  ghost predicate AcceptedIn(log: seq<Received>, quorum: nat, slot: Slot, se: SignedEnvelope) {
    && se.envelope.sid == slot.sid && se.envelope.phase == slot.phase && se.envelope.round == slot.round
    && se.envelope.from == slot.from && Accepts(log, quorum, se)
  }

  lemma FoundOnly(bcast: Slots, log: seq<Received>, quorum: nat, slot: Slot, p: bytes)
    requires slot in bcast && p in bcast[slot] && CandidateReflects(bcast[slot][p], log, slot, p)
    requires |bcast[slot][p].echoers| >= quorum && !Equivocates(log, slot.sid, slot.from)
    ensures AcceptedIn(log, quorum, slot, bcast[slot][p].env)
    ensures forall se :: AcceptedIn(log, quorum, slot, se) ==> se == bcast[slot][p].env
  {
    hide EncodeSigned;
    hide Echoers;
    forall se | AcceptedIn(log, quorum, slot, se)
      ensures se == bcast[slot][p].env
    {
      OneValue(log, quorum, se, bcast[slot][p].env);
    }
  }

  lemma NotFound(bcast: Slots, log: seq<Received>, quorum: nat, slot: Slot)
    requires slot in bcast && SlotReflects(bcast, log, slot) && AllFit(log)
    requires forall p :: p in bcast[slot] ==> |bcast[slot][p].echoers| < quorum
    ensures forall se :: !AcceptedIn(log, quorum, slot, se)
  {
    hide EncodeSigned;
    hide Echoers;
    hide Equivocates;
    forall se
      ensures !AcceptedIn(log, quorum, slot, se)
    {
      if Seen(log, se) && SlotOf(se) == slot {
        var p := EncodeSigned(se);
        assert CandidateReflects(bcast[slot][p], log, slot, p);
        SeenFits(log, se);
        SeenFits(log, bcast[slot][p].env);
        EncodingDistinguishes(bcast[slot][p].env, se);
      }
    }
  }

  lemma DeliversNone(p2p: Mailboxes, log: seq<Received>, m: Received)
    requires Delivers(p2p, log) && m.IsCandidate()
    ensures Delivers(p2p, log + [m])
  {
    hide First;
    forall a: Address, from: nat
      ensures Lookup(p2p, a, from) == First(log + [m], a, from)
    {
      FirstStays(log, m, a, from);
    }
  }

  lemma DeliversOne(p2p: Mailboxes, log: seq<Received>, m: Received)
    requires Delivers(p2p, log) && m.FromSender? && m.se.envelope.to.Some?
    ensures var e := m.se.envelope;
      var a := Address(e.sid, e.phase, e.round, e.to.value);
      var box := if a in p2p then p2p[a] else map[];
      Delivers(p2p[a := if e.from in box then box else box[e.from := m.se]], log + [m])
  {
    hide First;
    var e := m.se.envelope;
    var a := Address(e.sid, e.phase, e.round, e.to.value);
    var box := if a in p2p then p2p[a] else map[];
    var p2p' := p2p[a := if e.from in box then box else box[e.from := m.se]];
    forall x: Address, from: nat
      ensures Lookup(p2p', x, from) == First(log + [m], x, from)
    {
      FirstStays(log, m, x, from);
      assert Lookup(p2p, x, from) == First(log, x, from);
      assert SentTo(m, x, from) <==> x == a && from == e.from;
    }
  }
}
