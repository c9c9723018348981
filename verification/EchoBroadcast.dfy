/** Echo broadcast as a step system (node/src/net/mesh.rs, node/src/net/transport.rs): nodes run
    the first-echo rule and each feeds one acceptor, its own echoes included.  The network and the
    corrupt nodes deliver any authentic message to anyone, in any order, any number of times. */
module EchoBroadcast {
  import opened Wire
  import opened Acceptance
  import opened IdLists

  /** The committee: at least 2t - 1 nodes, at most t - 1 of them corrupt. */
  datatype Setup = Setup(nodes: set<nat>, honest: set<nat>, t: nat) {
    ghost predicate Valid() {
      1 <= t && honest <= nodes && |nodes| >= 2 * t - 1 && |nodes - honest| <= t - 1
    }
  }

  /** What honest nodes have done and received. */
  datatype State = State(
    logs: map<nat, seq<Received>>,
    echoed: map<nat, set<Slot>>,
    signed: set<SignedEnvelope>,
    echoes: set<(nat, SignedEnvelope)>)

  datatype Step =
    | Send(se: SignedEnvelope)
    | GetOriginal(at: nat, se: SignedEnvelope)
    | GetEcho(at: nat, echoer: nat, se: SignedEnvelope)

  ghost function Init(u: Setup): State {
    State(map i | i in u.honest :: [], map i | i in u.honest :: {}, {}, {})
  }

  /** The signature check: honest senders' values are only those they signed. */
  ghost predicate Authentic(u: Setup, s: State, se: SignedEnvelope) {
    && se.Fits() && se.envelope.to.None? && se.envelope.from in u.nodes
    && (se.envelope.from in u.honest ==> se in s.signed)
  }

  ghost predicate AuthenticEcho(u: Setup, s: State, e: nat, se: SignedEnvelope) {
    Authentic(u, s, se) && e in u.nodes && (e in u.honest ==> (e, se) in s.echoes)
  }

  ghost predicate Shaped(u: Setup, s: State) {
    s.logs.Keys == u.honest && s.echoed.Keys == u.honest && u.honest <= u.nodes
  }

  ghost predicate Enabled(u: Setup, s: State, step: Step)
    requires Shaped(u, s)
  {
    match step
    // an honest node broadcasts once per slot
    case Send(se) =>
      && se.envelope.from in u.honest && se.Fits() && se.envelope.to.None?
      && forall other :: other in s.signed ==> !SameSlot(other, se)
    // whatever arrives comes over a connection to a peer
    case GetOriginal(at, se) => at in u.honest && u.nodes - {at} != {} && Authentic(u, s, se)
    // an echo of one's own message is refused on receipt
    case GetEcho(at, e, se) => at in u.honest && e != se.envelope.from && AuthenticEcho(u, s, e, se)
  }

  /** `handle`. */
  ghost function Apply(u: Setup, s: State, step: Step): State
    requires Shaped(u, s) && Enabled(u, s, step)
  {
    match step
    case Send(se) => s.(signed := s.signed + {se})
    case GetOriginal(at, se) =>
      if SlotOf(se) in s.echoed[at] then s.(logs := s.logs[at := s.logs[at] + [FromSender(se)]])
      else s.(logs := s.logs[at := s.logs[at] + [FromEcho(at, se), FromSender(se)]],
              echoed := s.echoed[at := s.echoed[at] + {SlotOf(se)}],
              echoes := s.echoes + {(at, se)})
    case GetEcho(at, e, se) => s.(logs := s.logs[at := s.logs[at] + [FromEcho(e, se)]])
  }

  /** A run from the initial state. */
  ghost predicate Reachable(u: Setup, steps: seq<Step>, s: State) {
    if steps == [] then s == Init(u)
    else
      exists before ::
        Reachable(u, steps[..|steps| - 1], before) && Shaped(u, before)
        && Enabled(u, before, steps[|steps| - 1]) && s == Apply(u, before, steps[|steps| - 1])
  }

  // ---------------------------------------------------------------- invariant

  /** Honest senders sign one value per slot. */
  ghost predicate OnePerSlot(u: Setup, s: State) {
    && (forall a :: a in s.signed ==> a.envelope.from in u.honest)
    && forall a, b :: a in s.signed && b in s.signed && SameSlot(a, b) ==> a == b
  }

  /** Acceptors only hold authentic messages. */
  ghost predicate LogsAuthentic(u: Setup, s: State)
    requires Shaped(u, s)
  {
    forall j, m :: j in u.honest && m in s.logs[j] ==> MessageAuthentic(u, s, m)
  }

  ghost predicate MessageAuthentic(u: Setup, s: State, m: Received) {
    match m
    case FromSender(se) => Authentic(u, s, se)
    case FromEcho(e, se) => AuthenticEcho(u, s, e, se)
  }

  /** Honest echoes: recorded, looped back, and at most one per slot. */
  ghost predicate EchoesRecorded(u: Setup, s: State)
    requires Shaped(u, s)
  {
    && (forall p :: p in s.echoes ==>
        p.0 in u.honest && Authentic(u, s, p.1) && SlotOf(p.1) in s.echoed[p.0] && FromEcho(p.0, p.1) in s.logs[p.0])
    && forall p, q :: p in s.echoes && q in s.echoes && p.0 == q.0 && SlotOf(p.1) == SlotOf(q.1) ==> p == q
  }

  /** Every slot a node marked, or received an original for, it echoed. */
  ghost predicate SlotsEchoed(u: Setup, s: State)
    requires Shaped(u, s)
  {
    && (forall j, slot :: j in u.honest && slot in s.echoed[j] ==> EchoedIn(s, j, slot))
    && forall j, m :: j in u.honest && m in s.logs[j] && m.FromSender? ==> SlotOf(m.se) in s.echoed[j]
  }

  ghost predicate EchoedIn(s: State, j: nat, slot: Slot) {
    exists p :: p in s.echoes && p.0 == j && SlotOf(p.1) == slot
  }

  ghost predicate Inv(u: Setup, s: State) {
    Shaped(u, s) && OnePerSlot(u, s) && LogsAuthentic(u, s) && EchoesRecorded(u, s) && SlotsEchoed(u, s)
  }

  /** More signed values and echoes never make a message less authentic. */
  lemma AuthenticStays(u: Setup, s: State, s': State)
    requires s.signed <= s'.signed && s.echoes <= s'.echoes
    ensures forall se :: Authentic(u, s, se) ==> Authentic(u, s', se)
    ensures forall m :: MessageAuthentic(u, s, m) ==> MessageAuthentic(u, s', m)
  {
    hide SignedEnvelope.Fits;
  }

  lemma StepKeepsLogs(u: Setup, s: State, step: Step)
    requires Inv(u, s) && Enabled(u, s, step)
    ensures Shaped(u, Apply(u, s, step)) && OnePerSlot(u, Apply(u, s, step)) && LogsAuthentic(u, Apply(u, s, step))
  {
    hide SignedEnvelope.Fits;
    hide Authentic;
    var s' := Apply(u, s, step);
    AuthenticStays(u, s, s');
    forall j, m | j in u.honest && m in s'.logs[j]
      ensures MessageAuthentic(u, s', m)
    {
      if m in s.logs[j] {
        assert MessageAuthentic(u, s, m);
      }
    }
  }

  /** Whatever grows monotonically in a step. */
  lemma StepGrows(u: Setup, s: State, step: Step)
    requires Shaped(u, s) && Enabled(u, s, step)
    ensures var s' := Apply(u, s, step);
      s.signed <= s'.signed && s.echoes <= s'.echoes
      && forall j :: j in u.honest ==> s.echoed[j] <= s'.echoed[j] && forall m :: m in s.logs[j] ==> m in s'.logs[j]
  {
  }

  lemma StepKeepsEchoes(u: Setup, s: State, step: Step)
    requires Inv(u, s) && Enabled(u, s, step)
    ensures EchoesRecorded(u, Apply(u, s, step))
  {
    hide SignedEnvelope.Fits;
    hide Authentic;
    hide LogsAuthentic;
    hide OnePerSlot;
    hide SlotsEchoed;
    var s' := Apply(u, s, step);
    StepGrows(u, s, step);
    AuthenticStays(u, s, s');
    hide AuthenticEcho;
    forall p | p in s'.echoes
      ensures p.0 in u.honest && Authentic(u, s', p.1) && SlotOf(p.1) in s'.echoed[p.0]
        && FromEcho(p.0, p.1) in s'.logs[p.0]
      ensures p !in s.echoes ==> step.GetOriginal? && p == (step.at, step.se) && SlotOf(p.1) !in s.echoed[p.0]
    {
    }
  }

  lemma StepKeepsSlots(u: Setup, s: State, step: Step)
    requires Inv(u, s) && Enabled(u, s, step)
    ensures SlotsEchoed(u, Apply(u, s, step))
  {
    hide SignedEnvelope.Fits;
    hide Authentic;
    hide AuthenticEcho;
    hide LogsAuthentic;
    hide OnePerSlot;
    hide EchoesRecorded;
    hide EchoedIn;
    var s' := Apply(u, s, step);
    StepGrows(u, s, step);
    forall j, slot | j in u.honest && slot in s'.echoed[j]
      ensures EchoedIn(s', j, slot)
    {
      if slot in s.echoed[j] {
        EchoedStays(s, s', j, slot);
      } else {
        EchoedNow(s', j, step.se);
      }
    }
    forall j, m | j in u.honest && m in s'.logs[j] && m.FromSender?
      ensures SlotOf(m.se) in s'.echoed[j]
    {
      if m !in s.logs[j] {
        assert step.GetOriginal? && m == FromSender(step.se) && j == step.at;
      }
    }
  }

  lemma EchoedNow(s: State, j: nat, se: SignedEnvelope)
    requires (j, se) in s.echoes
    ensures EchoedIn(s, j, SlotOf(se))
  {
    var p := (j, se);
    assert p in s.echoes && p.0 == j;
  }

  lemma EchoedStays(s: State, s': State, j: nat, slot: Slot)
    requires EchoedIn(s, j, slot) && s.echoes <= s'.echoes
    ensures EchoedIn(s', j, slot)
  {
    var p :| p in s.echoes && p.0 == j && SlotOf(p.1) == slot;
    assert p in s'.echoes;
  }

  /** The invariant holds in every reachable state. */
  lemma {:induction false} ReachableInv(u: Setup, steps: seq<Step>, s: State)
    requires u.Valid() && Reachable(u, steps, s)
    ensures Inv(u, s)
    decreases |steps|
  {
    hide Apply;
    hide Enabled;
    if steps != [] {
      var n := |steps| - 1;
      var before :| Reachable(u, steps[..n], before) && Shaped(u, before)
        && Enabled(u, before, steps[n]) && s == Apply(u, before, steps[n]);
      ReachableInv(u, steps[..n], before);
      StepKeepsLogs(u, before, steps[n]);
      StepKeepsEchoes(u, before, steps[n]);
      StepKeepsSlots(u, before, steps[n]);
    }
  }

  // ---------------------------------------------------------------- delivered states

  /** Everything honest nodes sent each other has arrived. */
  ghost predicate Delivered(u: Setup, s: State)
    requires Shaped(u, s)
  {
    && (forall se, j :: se in s.signed && j in u.honest && j != se.envelope.from ==> FromSender(se) in s.logs[j])
    && forall p, j :: p in s.echoes && p.0 != p.1.envelope.from && j in u.honest && j != p.0 ==>
      FromEcho(p.0, p.1) in s.logs[j]
  }

  /** Node j's acceptor accepts the value. */
  ghost predicate NodeAccepts(u: Setup, s: State, j: nat, se: SignedEnvelope)
    requires Shaped(u, s) && j in u.honest && u.t >= 1
  {
    Accepts(s.logs[j], u.t - 1, se)
  }

  /** Among t - 1 echoers of a corrupt sender's value, one is honest. */
  lemma HonestEchoer(u: Setup, s: State, j: nat, se: SignedEnvelope) returns (e: nat)
    requires u.Valid() && Inv(u, s) && j in u.honest && NodeAccepts(u, s, j, se) && se.envelope.from !in u.honest
    requires se.envelope.from in u.nodes
    ensures e in u.honest && (e, se) in s.echoes
  {
    hide SignedEnvelope.Fits;
    hide EchoesRecorded;
    hide SlotsEchoed;
    hide Equivocates;
    var who, corrupt := Echoers(s.logs[j], se), u.nodes - u.honest;
    forall i | i in who
      ensures i in u.nodes && i != se.envelope.from && (i in u.honest ==> (i, se) in s.echoes)
    {
      var m :| m in s.logs[j] && m.FromEcho? && m.original == se && m.echoer != se.envelope.from && m.echoer == i;
      assert MessageAuthentic(u, s, m);
    }
    assert |corrupt - {se.envelope.from}| == |corrupt| - 1;
    if who <= corrupt - {se.envelope.from} {
      SubsetSize(who, corrupt - {se.envelope.from});
    }
    e :| e in who && e !in corrupt - {se.envelope.from};
  }

  /** A value that an honest node echoed has been seen by every honest node. */
  lemma EchoSeen(u: Setup, s: State, e: nat, se: SignedEnvelope, j: nat)
    requires Inv(u, s) && Delivered(u, s) && (e, se) in s.echoes && e != se.envelope.from && j in u.honest
    ensures Seen(s.logs[j], se)
  {
    hide SignedEnvelope.Fits;
    hide LogsAuthentic;
    var p := (e, se);
    assert FromEcho(p.0, p.1) in s.logs[j];
    assert FromEcho(e, se).IsCandidate() && FromEcho(e, se).Carried() == se;
  }

  lemma SeenAuthentic(u: Setup, s: State, j: nat, se: SignedEnvelope)
    requires Inv(u, s) && j in u.honest && Seen(s.logs[j], se)
    ensures Authentic(u, s, se)
  {
    hide SignedEnvelope.Fits;
    var m :| m in s.logs[j] && m.IsCandidate() && m.Carried() == se;
    assert MessageAuthentic(u, s, m);
  }

  lemma SeenOnce(log: seq<Received>, a: SignedEnvelope, b: SignedEnvelope)
    requires Seen(log, a) && Seen(log, b) && SameSlot(a, b)
      && !Equivocates(log, b.envelope.sid, b.envelope.from)
    ensures a == b
  {
    assert a != b ==> Conflict(log, a, b);
  }

  /** Agreement: when everything between honest nodes is delivered, two honest acceptors that
      accept a value for a slot accept the same one. */
  lemma Agreement(u: Setup, steps: seq<Step>, s: State, i: nat, j: nat, a: SignedEnvelope, b: SignedEnvelope)
    requires u.Valid() && Reachable(u, steps, s) && Shaped(u, s) && Delivered(u, s) && i in u.honest && j in u.honest
    requires NodeAccepts(u, s, i, a) && NodeAccepts(u, s, j, b) && SameSlot(a, b)
    ensures a == b
  {
    hide SignedEnvelope.Fits;
    hide Echoers;
    hide LogsAuthentic;
    hide EchoesRecorded;
    hide SlotsEchoed;
    hide Reachable;
    ReachableInv(u, steps, s);
    SeenAuthentic(u, s, i, a);
    SeenAuthentic(u, s, j, b);
    if a.envelope.from !in u.honest {
      var e := HonestEchoer(u, s, i, a);
      EchoSeen(u, s, e, a, j);
      SeenOnce(s.logs[j], a, b);
    }
  }

  /** In any state at all: two accepted values of one slot agree exactly when the second node has
      received the first node's value in some message. */
  lemma AgreeIffHeard(u: Setup, s: State, i: nat, j: nat, a: SignedEnvelope, b: SignedEnvelope)
    requires Shaped(u, s) && u.t >= 1 && i in u.honest && j in u.honest
    requires NodeAccepts(u, s, i, a) && NodeAccepts(u, s, j, b) && SameSlot(a, b)
    ensures a == b <==> Seen(s.logs[j], a)
  {
    hide Seen;
    hide Equivocates;
    if Seen(s.logs[j], a) {
      SeenOnce(s.logs[j], a, b);
    }
  }

  /** Validity: when everything between honest nodes is delivered, every honest acceptor accepts
      an honest sender's value, provided there is a second node.  (A sender hears its own value
      only from its peers, so a node on its own never accepts anything.) */
  lemma Validity(u: Setup, steps: seq<Step>, s: State, se: SignedEnvelope, j: nat)
    requires u.Valid() && Reachable(u, steps, s) && Shaped(u, s) && Delivered(u, s) && se in s.signed && j in u.honest
    ensures NodeAccepts(u, s, j, se) <==> |u.nodes| >= 2
  {
    hide Reachable;
    hide Inv;
    hide Delivered;
    hide Seen;
    hide Echoers;
    hide Equivocates;
    hide Accepts;
    ReachableInv(u, steps, s);
    if |u.nodes| >= 2 {
      SecondHonest(u);
      HonestEchoesHeard(u, s, se, j);
      NoEquivocation(u, s, se, j);
      AcceptsIs(u, s, j, se);
    } else {
      LoneNode(u, j);
      HearsNothing(u, steps, s, j);
      NothingAccepted(u, s, j, se);
    }
  }

  /** The value that a sender signed for this session, phase and round. */
  ghost predicate SignedFor(s: State, slot: Slot, se: SignedEnvelope) {
    && se in s.signed && se.envelope.sid == slot.sid && se.envelope.phase == slot.phase
    && se.envelope.round == slot.round && se.envelope.from == slot.from
  }

  /** A round completes: when everything between honest nodes is delivered, each of them accepts,
      for any round, exactly the value that every honest sender signed for it, however many other
      rounds and sessions the sender took part in. */
  lemma RoundCompletes(u: Setup, steps: seq<Step>, s: State, j: nat, slot: Slot, se: SignedEnvelope)
    requires u.Valid() && Reachable(u, steps, s) && Shaped(u, s) && Delivered(u, s) && j in u.honest
    requires |u.nodes| >= 2 && slot.from in u.honest
    ensures AcceptedIn(s.logs[j], u.t - 1, slot, se) <==> SignedFor(s, slot, se)
  {
    hide Reachable;
    hide Inv;
    hide Delivered;
    hide Accepts;
    if SignedFor(s, slot, se) {
      Validity(u, steps, s, se, j);
    }
    if AcceptedIn(s.logs[j], u.t - 1, slot, se) {
      ReachableInv(u, steps, s);
      AcceptedSigned(u, s, j, se);
    }
  }

  lemma AcceptedSigned(u: Setup, s: State, j: nat, se: SignedEnvelope)
    requires Shaped(u, s) && Inv(u, s) && j in u.honest && u.t >= 1 && NodeAccepts(u, s, j, se)
    requires se.envelope.from in u.honest
    ensures se in s.signed
  {
    hide Inv;
    hide Seen;
    hide Echoers;
    hide Equivocates;
    SeenAuthentic(u, s, j, se);
  }

  lemma SecondHonest(u: Setup)
    requires u.Valid() && |u.nodes| >= 2
    ensures |u.honest| >= 2
  {
    assert u.nodes == u.honest + (u.nodes - u.honest);
  }

  lemma LoneNode(u: Setup, j: nat)
    requires |u.nodes| < 2 && j in u.nodes
    ensures u.nodes == {j}
  {
    SubsetOfSameSize({j}, u.nodes);
  }

  lemma {:induction false} HearsNothing(u: Setup, steps: seq<Step>, s: State, j: nat)
    requires u.Valid() && Reachable(u, steps, s) && Shaped(u, s) && u.nodes == {j} && j in u.honest
    ensures s.logs[j] == []
    decreases |steps|
  {
    hide Apply;
    hide Enabled;
    hide Setup.Valid;
    if steps != [] {
      var n := |steps| - 1;
      var before :| Reachable(u, steps[..n], before) && Shaped(u, before)
        && Enabled(u, before, steps[n]) && s == Apply(u, before, steps[n]);
      HearsNothing(u, steps[..n], before, j);
      StillNothing(u, before, steps[n], j);
    }
  }

  lemma StillNothing(u: Setup, s: State, step: Step, j: nat)
    requires Shaped(u, s) && Enabled(u, s, step) && u.nodes == {j} && j in u.honest && s.logs[j] == []
    ensures Shaped(u, Apply(u, s, step)) && Apply(u, s, step).logs[j] == []
  {
    hide SignedEnvelope.Fits;
  }

  lemma NothingAccepted(u: Setup, s: State, j: nat, se: SignedEnvelope)
    requires Shaped(u, s) && j in u.honest && u.t >= 1 && s.logs[j] == []
    ensures !NodeAccepts(u, s, j, se)
  {
    hide Equivocates;
    hide Echoers;
  }

  /** The excluded case happens: a single node broadcasts, and everything is delivered. */
  lemma LoneBroadcast(se: SignedEnvelope) returns (u: Setup, steps: seq<Step>, s: State)
    requires se.Fits() && se.envelope.to.None? && se.envelope.from == 1
    ensures u.Valid() && Reachable(u, steps, s) && Shaped(u, s) && Delivered(u, s) && se in s.signed && 1 in u.honest
    ensures !NodeAccepts(u, s, 1, se)
  {
    hide SignedEnvelope.Fits;
    hide Reachable;
    hide Accepts;
    u := Setup({1}, {1}, 1);
    assert u.nodes - u.honest == {};
    s := Apply(u, Init(u), Send(se));
    steps := [] + [Send(se)];
    RunStarts(u);
    RunGoesOn(u, [], Init(u), Send(se));
    NothingAccepted(u, s, 1, se);
  }

  lemma AcceptsIs(u: Setup, s: State, j: nat, se: SignedEnvelope)
    requires Shaped(u, s) && j in u.honest && u.t >= 1
    requires Seen(s.logs[j], se) && |Echoers(s.logs[j], se)| >= u.t - 1
    requires !Equivocates(s.logs[j], se.envelope.sid, se.envelope.from)
    ensures NodeAccepts(u, s, j, se)
  {
  }

  /** The echoes of all other honest nodes are at j: that is a quorum. */
  lemma HonestEchoesHeard(u: Setup, s: State, se: SignedEnvelope, j: nat)
    requires u.Valid() && Shaped(u, s) && Inv(u, s) && Delivered(u, s) && se in s.signed && j in u.honest
    requires j != se.envelope.from || |u.honest| >= 2
    ensures Seen(s.logs[j], se) && |Echoers(s.logs[j], se)| >= u.t - 1
  {
    hide SignedEnvelope.Fits;
    hide Inv;
    hide Delivered;
    hide Seen;
    hide Echoers;
    hide Setup.Valid;
    var others, log := u.honest - {se.envelope.from}, s.logs[j];
    forall k | k in others
      ensures FromEcho(k, se) in log
    {
      HeardFrom(u, s, k, se, j);
    }
    HonestCount(u);
    SenderHonest(u, s, se);
    EchoersInclude(log, se, others);
    OriginalSeen(u, s, se, j, others);
  }

  lemma HeardFrom(u: Setup, s: State, k: nat, se: SignedEnvelope, j: nat)
    requires Shaped(u, s) && Inv(u, s) && Delivered(u, s) && se in s.signed
    requires k in u.honest && k != se.envelope.from && j in u.honest
    ensures FromEcho(k, se) in s.logs[j]
  {
    hide Inv;
    hide Delivered;
    HonestNodeEchoes(u, s, se, k);
    HeardBack(u, s, k, se, j);
  }

  lemma SenderHonest(u: Setup, s: State, se: SignedEnvelope)
    requires Inv(u, s) && se in s.signed
    ensures se.envelope.from in u.honest
  {
  }

  lemma EchoersInclude(log: seq<Received>, se: SignedEnvelope, others: set<nat>)
    requires se.envelope.from !in others && forall k :: k in others ==> FromEcho(k, se) in log
    ensures |Echoers(log, se)| >= |others|
  {
    forall k | k in others ensures k in Echoers(log, se) { assert FromEcho(k, se) in log; }
    SubsetSize(others, Echoers(log, se));
  }

  lemma HonestCount(u: Setup)
    requires u.Valid()
    ensures |u.honest| >= u.t
    ensures forall i :: i in u.honest ==> |u.honest - {i}| == |u.honest| - 1
  {
    assert u.nodes == u.honest + (u.nodes - u.honest);
  }

  lemma HonestNodeEchoes(u: Setup, s: State, se: SignedEnvelope, k: nat)
    requires Inv(u, s) && Delivered(u, s) && se in s.signed && k in u.honest && k != se.envelope.from
    ensures (k, se) in s.echoes
  {
    hide SignedEnvelope.Fits;
    hide LogsAuthentic;
    assert FromSender(se) in s.logs[k];
    assert EchoedIn(s, k, SlotOf(se));
    var p :| p in s.echoes && p.0 == k && SlotOf(p.1) == SlotOf(se);
    assert Authentic(u, s, p.1);
  }

  lemma HeardBack(u: Setup, s: State, k: nat, se: SignedEnvelope, j: nat)
    requires Inv(u, s) && Delivered(u, s) && (k, se) in s.echoes && k != se.envelope.from && j in u.honest
    ensures FromEcho(k, se) in s.logs[j]
  {
    hide SignedEnvelope.Fits;
    hide LogsAuthentic;
    hide SlotsEchoed;
    var p := (k, se);
    assert FromEcho(p.0, p.1) in s.logs[j];
  }

  lemma OriginalSeen(u: Setup, s: State, se: SignedEnvelope, j: nat, others: set<nat>)
    requires Inv(u, s) && Delivered(u, s) && se in s.signed && j in u.honest
    requires others == u.honest - {se.envelope.from} && (j != se.envelope.from || |u.honest| >= 2)
    requires forall k :: k in others ==> FromEcho(k, se) in s.logs[j]
    ensures Seen(s.logs[j], se)
  {
    hide SignedEnvelope.Fits;
    hide LogsAuthentic;
    hide EchoesRecorded;
    hide SlotsEchoed;
    assert se.envelope.from in u.honest;
    assert |others| == |u.honest| - 1;
    if j in others {
      assert FromEcho(j, se).Carried() == se;
    } else {
      assert others != {};
      var k :| k in others;
      assert FromEcho(k, se).Carried() == se;
    }
  }

  lemma NoEquivocation(u: Setup, s: State, se: SignedEnvelope, j: nat)
    requires Inv(u, s) && se in s.signed && j in u.honest
    ensures !Equivocates(s.logs[j], se.envelope.sid, se.envelope.from)
  {
    hide SignedEnvelope.Fits;
    hide Seen;
    if Equivocates(s.logs[j], se.envelope.sid, se.envelope.from) {
      var a, b :| Conflict(s.logs[j], a, b) && a.envelope.sid == se.envelope.sid && a.envelope.from == se.envelope.from;
      SeenAuthentic(u, s, j, a);
      SeenAuthentic(u, s, j, b);
      assert false;
    }
  }

  /** Delivery is needed: a corrupt sender can make two honest nodes accept different values
      until their echoes cross. */
  lemma EarlyDisagreement(a: SignedEnvelope, b: SignedEnvelope) returns (u: Setup, steps: seq<Step>, s: State)
    requires a.Fits() && b.Fits() && a != b && SameSlot(a, b) && a.envelope.from == 1
    requires a.envelope.to.None? && b.envelope.to.None?
    ensures u.Valid() && Reachable(u, steps, s) && Shaped(u, s) && !Delivered(u, s)
    ensures 2 in u.honest && 3 in u.honest && NodeAccepts(u, s, 2, a) && NodeAccepts(u, s, 3, b)
  {
    hide SignedEnvelope.Fits;
    hide Accepts;
    hide Reachable;
    u := Setup({1, 2, 3}, {2, 3}, 2);
    assert u.nodes - u.honest == {1};
    var s0 := Init(u);
    FirstOriginal(u, s0, 2, a);
    var s1 := Apply(u, s0, GetOriginal(2, a));
    FirstOriginal(u, s1, 3, b);
    s := Apply(u, s1, GetOriginal(3, b));
    hide Apply;
    hide Enabled;
    steps := [GetOriginal(2, a)] + [GetOriginal(3, b)];
    RunStarts(u);
    RunGoesOn(u, [], s0, GetOriginal(2, a));
    assert [] + [GetOriginal(2, a)] == [GetOriginal(2, a)];
    RunGoesOn(u, [GetOriginal(2, a)], s1, GetOriginal(3, b));
    AcceptsAlone(2, a);
    AcceptsAlone(3, b);
    NotDelivered(u, s, 2, a, 3);
  }

  /** A node's first value in a slot: it echoes, and hears itself. */
  lemma FirstOriginal(u: Setup, s: State, at: nat, se: SignedEnvelope)
    requires Shaped(u, s) && at in u.honest && s.logs[at] == [] && s.echoed[at] == {}
    requires se.Fits() && se.envelope.to.None? && se.envelope.from in u.nodes && se.envelope.from !in u.honest
    ensures Enabled(u, s, GetOriginal(at, se))
    ensures var s' := Apply(u, s, GetOriginal(at, se));
      && Shaped(u, s') && s'.logs[at] == [FromEcho(at, se), FromSender(se)] && (at, se) in s'.echoes
      && s.echoes <= s'.echoes
      && forall j :: j in u.honest && j != at ==> s'.logs[j] == s.logs[j] && s'.echoed[j] == s.echoed[j]
  {
    hide SignedEnvelope.Fits;
    assert se.envelope.from in u.nodes - {at};
    assert [] + [FromEcho(at, se), FromSender(se)] == [FromEcho(at, se), FromSender(se)];
  }

  lemma NotDelivered(u: Setup, s: State, e: nat, se: SignedEnvelope, j: nat)
    requires Shaped(u, s) && (e, se) in s.echoes && e != se.envelope.from && j in u.honest && j != e
    requires FromEcho(e, se) !in s.logs[j]
    ensures !Delivered(u, s)
  {
    var p := (e, se);
    assert p in s.echoes && FromEcho(p.0, p.1) !in s.logs[j];
  }

  lemma RunStarts(u: Setup)
    ensures Reachable(u, [], Init(u))
  {
  }

  lemma RunGoesOn(u: Setup, steps: seq<Step>, s: State, step: Step)
    requires Reachable(u, steps, s) && Shaped(u, s) && Enabled(u, s, step)
    ensures Reachable(u, steps + [step], Apply(u, s, step))
  {
    hide Apply;
    hide Enabled;
    assert (steps + [step])[..|steps|] == steps;
  }

  /** One node's own echo is a quorum of one. */
  lemma AcceptsAlone(j: nat, se: SignedEnvelope)
    requires j != se.envelope.from && se.envelope.to.None?
    ensures Accepts([FromEcho(j, se), FromSender(se)], 1, se)
  {
    var log := [FromEcho(j, se), FromSender(se)];
    assert FromEcho(j, se) in log && FromEcho(j, se).Carried() == se;
    assert j in Echoers(log, se);
    assert {j} <= Echoers(log, se);
    SubsetSize({j}, Echoers(log, se));
    forall x | Seen(log, x) ensures x == se {}
  }
}
