/** Leases, fencing and promotion, and the reconcile step (src/ha.rs). */
module HaPolicy {
  import opened Basics

  type NodeId = string

  datatype LeaseRecord = LeaseRecord(holder: NodeId, generation: nat, renewedAt: nat, ttl: nat)

  /** Last second at which the lease is still valid. */
  function Expiry(lease: LeaseRecord): nat {
    SaturatingAdd64(lease.renewedAt, lease.ttl)
  }

  predicate IsExpired(lease: LeaseRecord, now: nat) {
    now > Expiry(lease)
  }

  datatype FreshnessLedger = FreshnessLedger(source: NodeId, sourceGeneration: nat, syncedAt: nat)

  datatype PromotionConfig = PromotionConfig(maxFreshnessAge: nat, maxFutureSkew: nat)

  datatype NodeRole = Writer | Replica

  datatype FenceViolation = LeaseExpired | NotHolder(holder: NodeId) | GenerationMismatch(local: nat, lease: nat)

  datatype PromotionViolation =
    | CandidateLeaseExpired
    | CandidateNotHolder(holder: NodeId)
    | TargetGenerationMismatch(target: nat, lease: nat)
    | MissingFreshness
    | FreshnessFromFuture(syncedAt: nat)
    | StaleFreshness(age: nat)
    | LineageTooOld(observed: nat, required: nat)

  function EnforceWriteFence(now: nat, node: NodeId, generation: nat, lease: LeaseRecord): Option<FenceViolation> {
    if IsExpired(lease, now) then Some(LeaseExpired)
    else if lease.holder != node then Some(NotHolder(lease.holder))
    else if lease.generation != generation then Some(GenerationMismatch(generation, lease.generation))
    else None
  }

  function ValidatePromotion(now: nat, lease: LeaseRecord, candidate: NodeId, target: nat, minSource: nat,
                             freshness: Option<FreshnessLedger>, config: PromotionConfig): Option<PromotionViolation>
  {
    if IsExpired(lease, now) then Some(CandidateLeaseExpired)
    else if lease.holder != candidate then Some(CandidateNotHolder(lease.holder))
    else if lease.generation != target then Some(TargetGenerationMismatch(target, lease.generation))
    else if freshness.None? then Some(MissingFreshness)
    else if freshness.value.syncedAt > SaturatingAdd64(now, config.maxFutureSkew) then
      Some(FreshnessFromFuture(freshness.value.syncedAt))
    else if SaturatingSub(now, freshness.value.syncedAt) > config.maxFreshnessAge then
      Some(StaleFreshness(SaturatingSub(now, freshness.value.syncedAt)))
    else if freshness.value.sourceGeneration < minSource then
      Some(LineageTooOld(freshness.value.sourceGeneration, minSource))
    else None
  }

  // ----- What the checks decide -----

  /** A lease runs out after its time to live, and never if that lies beyond the clock; the
      fence names the first thing that is wrong. */
  lemma FenceExactlyWhen(now: nat, node: NodeId, generation: nat, lease: LeaseRecord)
    requires now <= U64_MAX
    ensures IsExpired(lease, now) <==> now > lease.renewedAt + lease.ttl
    ensures lease.renewedAt + lease.ttl >= U64_MAX ==> !IsExpired(lease, now)
    ensures EnforceWriteFence(now, node, generation, lease) ==
            if now > lease.renewedAt + lease.ttl then Some(LeaseExpired)
            else if lease.holder != node then Some(NotHolder(lease.holder))
            else if lease.generation != generation then Some(GenerationMismatch(generation, lease.generation))
            else None
  {
  }

  /** A denied promotion names a condition that fails, with the values it compared. */
  lemma DenialNamesFailure(now: nat, lease: LeaseRecord, candidate: NodeId, target: nat, minSource: nat,
                           freshness: Option<FreshnessLedger>, config: PromotionConfig)
    requires now <= U64_MAX && (freshness.Some? ==> freshness.value.syncedAt <= U64_MAX)
    ensures var denied := ValidatePromotion(now, lease, candidate, target, minSource, freshness, config);
            denied.Some? ==>
              match denied.value
              case CandidateLeaseExpired => now > lease.renewedAt + lease.ttl
              case CandidateNotHolder(holder) => holder == lease.holder != candidate
              case TargetGenerationMismatch(t, g) => t == target && g == lease.generation && t != g
              case MissingFreshness => freshness == None
              case FreshnessFromFuture(at) =>
                freshness.Some? && at == freshness.value.syncedAt && at > now + config.maxFutureSkew
              case StaleFreshness(age) =>
                && freshness.Some? && freshness.value.syncedAt + age == now
                && age > config.maxFreshnessAge
              case LineageTooOld(observed, required) =>
                && freshness.Some? && observed == freshness.value.sourceGeneration
                && required == minSource && observed < required
  {
  }

  // ----- Observing the lease -----

  datatype LeaseObservation =
    | Missing
    | Acquired(lease: LeaseRecord)
    | Renewed(lease: LeaseRecord)
    | Transferred(previous: LeaseRecord, current: LeaseRecord)
    | Replaced(lease: LeaseRecord)
    | Unchanged(lease: LeaseRecord)

  function ObserveLeaseChange(previous: Option<LeaseRecord>, current: Option<LeaseRecord>): LeaseObservation {
    match (previous, current)
    case (_, None) => Missing
    case (None, Some(cur)) => Acquired(cur)
    case (Some(prev), Some(cur)) =>
      if prev == cur then Unchanged(cur)
      else if prev.holder != cur.holder then Transferred(prev, cur)
      else if prev.generation == cur.generation then Renewed(cur)
      else Replaced(cur)
  }

  /** Every pair of leases is observed as exactly the change it is. */
  lemma ObservedChange(previous: Option<LeaseRecord>, current: Option<LeaseRecord>)
    ensures var seen := ObserveLeaseChange(previous, current);
            && (current == None <==> seen == Missing)
            && (previous == None && current != None <==> seen.Acquired?)
            && (previous != None && current != None ==>
                  var p, c := previous.value, current.value;
                  && (seen == Unchanged(c) <==> p == c)
                  && (seen == Transferred(p, c) <==> p.holder != c.holder)
                  && (seen == Renewed(c) <==> p.holder == c.holder && p.generation == c.generation && p != c)
                  && (seen == Replaced(c) <==> p.holder == c.holder && p.generation != c.generation))
  {
  }

  /** Reading the lease back out of an observation, as the control loop does, returns the
      lease that was observed. */
  function LeaseFromObservation(observation: LeaseObservation): (lease: Option<LeaseRecord>)
    ensures forall previous, current :: observation == ObserveLeaseChange(previous, current) ==> lease == current
  {
    match observation
    case Missing => None
    case Acquired(l) => Some(l)
    case Renewed(l) => Some(l)
    case Replaced(l) => Some(l)
    case Unchanged(l) => Some(l)
    case Transferred(_, current) => Some(current)
  }

  // ----- Reconciling -----

  datatype DemotionReason = LeaseMissing | FenceBroken(violation: FenceViolation)

  datatype Decision =
    | KeepReplica
    | PromoteToWriter(generation: nat)
    | KeepWriter
    | DemoteToReplica(reason: DemotionReason)

  datatype Outcome = Outcome(decision: Decision, observation: LeaseObservation, denied: Option<PromotionViolation>)

  datatype HaAction =
    | EnsureReplica
    | EnableWriter(generation: nat)
    | DisableWriter(reason: DemotionReason)
    | ContinueWriter
    | RecordPromotionDenied(violation: PromotionViolation)

  datatype Runtime = Runtime(node: NodeId, role: NodeRole, generation: nat,
                             lease: Option<LeaseRecord>, freshness: Option<FreshnessLedger>)

  /** What one reconcile tick is given. */
  datatype Inputs = Inputs(now: nat, lease: Option<LeaseRecord>, minSource: nat, config: PromotionConfig)

  function NewRuntime(node: NodeId): Runtime {
    Runtime(node, Replica, 0, None, None)
  }

  function Decide(rt: Runtime, x: Inputs): (Decision, Option<PromotionViolation>) {
    match (rt.role, x.lease)
    case (Writer, None) => (DemoteToReplica(LeaseMissing), None)
    case (Writer, Some(lease)) =>
      var broken := EnforceWriteFence(x.now, rt.node, rt.generation, lease);
      if broken.None? then (KeepWriter, None) else (DemoteToReplica(FenceBroken(broken.value)), None)
    case (Replica, None) => (KeepReplica, None)
    case (Replica, Some(lease)) =>
      var denied := ValidatePromotion(x.now, lease, rt.node, lease.generation, x.minSource, rt.freshness, x.config);
      if denied.None? then (PromoteToWriter(lease.generation), None) else (KeepReplica, denied)
  }

  function Settle(rt: Runtime, lease: Option<LeaseRecord>, decision: Decision): Runtime {
    match decision
    case KeepReplica => rt.(lease := lease)
    case KeepWriter => rt.(lease := lease)
    case PromoteToWriter(g) => rt.(role := Writer, generation := g, lease := lease)
    case DemoteToReplica(_) => rt.(role := Replica, lease := lease)
  }

  function Reconcile(rt: Runtime, x: Inputs): (Runtime, Outcome) {
    var (decision, denied) := Decide(rt, x);
    (Settle(rt, x.lease, decision), Outcome(decision, ObserveLeaseChange(rt.lease, x.lease), denied))
  }

  function ActionsFor(outcome: Outcome): (actions: seq<HaAction>) {
    match outcome.decision
    case KeepReplica =>
      [EnsureReplica] + if outcome.denied.Some? then [RecordPromotionDenied(outcome.denied.value)] else []
    case PromoteToWriter(g) => [EnableWriter(g)]
    case KeepWriter => [ContinueWriter]
    case DemoteToReplica(reason) => [DisableWriter(reason), EnsureReplica]
  }

  /** The plan carries out the change of role, writer mode first switched off, and tells
      why: a writer without a lease or behind a broken fence, a replica denied. */
  lemma PlanFollowsRole(rt: Runtime, x: Inputs)
    ensures var (next, outcome) := Reconcile(rt, x);
            var plan := ActionsFor(outcome);
            match (rt.role, next.role)
            case (Replica, Writer) => x.lease.Some? && plan == [EnableWriter(x.lease.value.generation)]
            case (Writer, Writer) => plan == [ContinueWriter]
            case (Writer, Replica) =>
              && |plan| == 2 && plan[0].DisableWriter? && plan[1] == EnsureReplica
              && plan[0].reason ==
                 if x.lease.None? then LeaseMissing
                 else FenceBroken(EnforceWriteFence(x.now, rt.node, rt.generation, x.lease.value).value)
            case (Replica, Replica) =>
              if x.lease.None? then plan == [EnsureReplica]
              else
                var denied := ValidatePromotion(x.now, x.lease.value, rt.node, x.lease.value.generation,
                                                x.minSource, rt.freshness, x.config);
                denied.Some? && plan == [EnsureReplica, RecordPromotionDenied(denied.value)]
  {
  }

  /** The runtime object of one node. */
  class HaRuntime {
    const node: NodeId
    var role: NodeRole
    var generation: nat
    var lease: Option<LeaseRecord>
    var freshness: Option<FreshnessLedger>

    ghost function View(): Runtime
      reads this
    {
      Runtime(node, role, generation, lease, freshness)
    }

    constructor (node: NodeId)
      ensures View() == NewRuntime(node)
      ensures role == Replica && generation == 0 && lease == None && freshness == None
    {
      this.node := node;
      role := Replica;
      generation := 0;
      lease := None;
      freshness := None;
    }

    method UpdateFreshness(ledger: Option<FreshnessLedger>)
      modifies this
      ensures View() == old(View()).(freshness := ledger)
    {
      freshness := ledger;
    }

    method ReconcileWithOutcome(now: nat, observed: Option<LeaseRecord>, minSource: nat, config: PromotionConfig)
      returns (outcome: Outcome)
      modifies this
      ensures (View(), outcome) == Reconcile(old(View()), Inputs(now, observed, minSource, config))
    {
      var observation := ObserveLeaseChange(lease, observed);
      lease := observed;
      if role == Writer {
        if lease.None? {
          role := Replica;
          return Outcome(DemoteToReplica(LeaseMissing), observation, None);
        }
        var broken := EnforceWriteFence(now, node, generation, lease.value);
        if broken.None? {
          return Outcome(KeepWriter, observation, None);
        }
        role := Replica;
        return Outcome(DemoteToReplica(FenceBroken(broken.value)), observation, None);
      }
      if lease.None? {
        return Outcome(KeepReplica, observation, None);
      }
      var denied := ValidatePromotion(now, lease.value, node, lease.value.generation, minSource, freshness, config);
      if denied.None? {
        role := Writer;
        generation := lease.value.generation;
        return Outcome(PromoteToWriter(generation), observation, None);
      }
      return Outcome(KeepReplica, observation, denied);
    }

    method PlanActions(now: nat, observed: Option<LeaseRecord>, minSource: nat, config: PromotionConfig)
      returns (outcome: Outcome, actions: seq<HaAction>)
      modifies this
      ensures (View(), outcome) == Reconcile(old(View()), Inputs(now, observed, minSource, config))
      ensures actions == ActionsFor(outcome)
    {
      outcome := ReconcileWithOutcome(now, observed, minSource, config);
      actions := [];
      match outcome.decision
      case KeepReplica =>
        actions := actions + [EnsureReplica];
        if outcome.denied.Some? {
          actions := actions + [RecordPromotionDenied(outcome.denied.value)];
        }
      case PromoteToWriter(g) => actions := actions + [EnableWriter(g)];
      case KeepWriter => actions := actions + [ContinueWriter];
      case DemoteToReplica(reason) => actions := actions + [DisableWriter(reason), EnsureReplica];
    }
  }

  // ----- Runs of the runtime -----

  /** One tick: the freshness file is read, then the lease is reconciled. */
  datatype Tick = Tick(freshness: Option<FreshnessLedger>, inputs: Inputs)

  function Before(rt: Runtime, tick: Tick): Runtime {
    rt.(freshness := tick.freshness)
  }

  function After(rt: Runtime, tick: Tick): Runtime {
    Reconcile(Before(rt, tick), tick.inputs).0
  }

  function RunTicks(node: NodeId, ticks: seq<Tick>): Runtime {
    if ticks == [] then NewRuntime(node)
    else After(RunTicks(node, ticks[..|ticks| - 1]), ticks[|ticks| - 1])
  }

  /** A writer holds the cached lease, at its own generation, unexpired when last checked. */
  predicate HoldsLease(rt: Runtime, now: nat) {
    && rt.lease.Some? && rt.lease.value.holder == rt.node
    && rt.lease.value.generation == rt.generation
    && now <= Min(rt.lease.value.renewedAt + rt.lease.value.ttl, U64_MAX)
  }

  /** The promotion rule, said directly. */
  predicate MayPromote(rt: Runtime, x: Inputs) {
    && x.lease.Some? && x.lease.value.holder == rt.node
    && x.now <= Min(x.lease.value.renewedAt + x.lease.value.ttl, U64_MAX)
    && rt.freshness.Some?
    && rt.freshness.value.syncedAt <= Min(x.now + x.config.maxFutureSkew, U64_MAX)
    && x.now <= rt.freshness.value.syncedAt + x.config.maxFreshnessAge
    && x.minSource <= rt.freshness.value.sourceGeneration
  }

  /** In every run: a writer holds a valid lease at its generation; it got there only by a
      promotion that met the freshness window and lineage bound; a generation changes only
      on such a promotion, out of replica mode; and the cached lease is what was observed. */
  lemma {:induction false} RuntimeInvariants(node: NodeId, ticks: seq<Tick>)
    requires ticks != []
    ensures var last := ticks[|ticks| - 1];
            var rt, next := Before(RunTicks(node, ticks[..|ticks| - 1]), last), RunTicks(node, ticks);
            && next.node == node && next.lease == last.inputs.lease
            && (next.role == Writer ==> HoldsLease(next, last.inputs.now))
            && (rt.role == Replica ==> (next.role == Writer <==> MayPromote(rt, last.inputs)))
            && (rt.role == Writer ==>
                  (next.role == Writer <==> HoldsLease(rt.(lease := last.inputs.lease), last.inputs.now)))
            && (next.generation != rt.generation ==> rt.role == Replica && next.role == Writer)
  {
    NodeNeverChanges(node, ticks[..|ticks| - 1]);
  }

  lemma {:induction false} NodeNeverChanges(node: NodeId, ticks: seq<Tick>)
    ensures RunTicks(node, ticks).node == node
  {
    if ticks != [] {
      NodeNeverChanges(node, ticks[..|ticks| - 1]);
    }
  }

  predicate Observes(tick: Tick, generation: nat) {
    tick.inputs.lease.Some? && tick.inputs.lease.value.generation == generation
  }

  lemma {:induction false} GenerationWasObserved(node: NodeId, ticks: seq<Tick>)
    ensures var g := RunTicks(node, ticks).generation;
            g == 0 || exists i :: 0 <= i < |ticks| && Observes(ticks[i], g)
  {
    if ticks != [] {
      var init := ticks[..|ticks| - 1];
      var before, g := RunTicks(node, init).generation, RunTicks(node, ticks).generation;
      GenerationWasObserved(node, init);
      if g == before && g != 0 {
        var i :| 0 <= i < |init| && Observes(init[i], g);
        assert Observes(ticks[i], g);
      } else if g != 0 {
        assert Observes(ticks[|ticks| - 1], g);
      }
    }
  }

  /** The observed lease generations never go down. */
  ghost predicate Ordered(ticks: seq<Tick>) {
    forall i, j, g, h :: 0 <= i < j < |ticks| && Observes(ticks[i], g) && Observes(ticks[j], h) ==> g <= h
  }

  lemma GenerationStep(node: NodeId, ticks: seq<Tick>)
    requires ticks != [] && Ordered(ticks)
    ensures RunTicks(node, ticks[..|ticks| - 1]).generation <= RunTicks(node, ticks).generation
  {
    var init := ticks[..|ticks| - 1];
    var before, g := RunTicks(node, init).generation, RunTicks(node, ticks).generation;
    GenerationWasObserved(node, init);
    if g != before && before != 0 {
      var i :| 0 <= i < |init| && Observes(init[i], before);
      assert Observes(ticks[i], before) && Observes(ticks[|ticks| - 1], g);
    }
  }

  /** If the generations observed never go down, neither does the local generation. */
  lemma {:induction false} GenerationNeverDecreases(node: NodeId, ticks: seq<Tick>, n: nat)
    requires n <= |ticks| && Ordered(ticks)
    ensures RunTicks(node, ticks[..n]).generation <= RunTicks(node, ticks).generation
    decreases |ticks|
  {
    if n == |ticks| {
      assert ticks[..n] == ticks;
    } else {
      var init := ticks[..|ticks| - 1];
      assert init[..n] == ticks[..n];
      GenerationNeverDecreases(node, init, n);
      GenerationStep(node, ticks);
    }
  }

  /** Repeating a tick with the same inputs never demotes, and from the second time on
      nothing changes any more.  (The second may still promote: a writer whose lease moved
      to a new generation is demoted by the first.) */
  lemma RepeatedTick(rt: Runtime, tick: Tick)
    ensures var once := After(rt, tick);
            var twice := After(once, tick);
            && !Reconcile(once, tick.inputs).1.decision.DemoteToReplica?
            && After(twice, tick) == twice
            && (rt.role == Replica ==> twice == once)
  {
  }
}
