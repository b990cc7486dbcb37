/** One node: executing a plan, and the state shared with the SQL gateway
    (`ReadinessAwareExecutor` and the control loop in src/main.rs, `execute_controller_plan`
    and `HaSharedState` in src/ha.rs, the access checks in src/gateway/server.rs). */
module HaNode {
  import opened Basics
  import opened HaPolicy

  /** What the gateway reads. */
  datatype Shared = Shared(node: NodeId, role: NodeRole, generation: nat,
                           leader: Option<NodeId>, lease: Option<LeaseRecord>)

  predicate IsWriter(st: Shared, now: nat) {
    st.role == Writer && st.lease.Some? && EnforceWriteFence(now, st.node, st.generation, st.lease.value).None?
  }

  /** The write admission check: the generation the write is tagged with, or refusal. */
  function CheckWriteAccess(st: Shared, now: nat): Option<nat> {
    if IsWriter(st, now) then Some(st.generation) else None
  }

  datatype RoleFile = NoRoleFile | SaysReplica | SaysWriter(generation: nat)

  /** Everything a node keeps outside its runtime. */
  datatype Local = Local(shared: Shared, ready: bool, roleFile: RoleFile)

  function NewLocal(node: NodeId): Local {
    Local(Shared(node, Replica, 0, None, None), false, NoRoleFile)
  }

  /** Where an executor call fails: writing the role file, appending to the audit log, or
      writing the readiness file (after the in-memory flag is set). */
  datatype Fault = NoFault | RoleFileFault | AuditFault | ReadinessFault

  function RoleFileAfter(file: RoleFile, action: HaAction): RoleFile {
    match action
    case EnsureReplica => SaysReplica
    case EnableWriter(g) => SaysWriter(g)
    case DisableWriter(_) => SaysReplica
    case ContinueWriter => file
    case RecordPromotionDenied(_) => file
  }

  function ReadyAfter(action: HaAction): bool {
    action.EnableWriter? || action.ContinueWriter?
  }

  function SharedAfter(st: Shared, action: HaAction): Shared {
    match action
    case EnableWriter(g) => st.(role := Writer, generation := g)
    case ContinueWriter => st.(role := Writer)
    case _ => st.(role := Replica)
  }

  /** The local state after one executor call; it completed iff there was no fault. */
  function Execute(n: Local, action: HaAction, fault: Fault): Local {
    match fault
    case RoleFileFault => n
    case AuditFault => n.(roleFile := RoleFileAfter(n.roleFile, action))
    case ReadinessFault => n.(roleFile := RoleFileAfter(n.roleFile, action), ready := ReadyAfter(action))
    case NoFault => Local(SharedAfter(n.shared, action), ReadyAfter(action), RoleFileAfter(n.roleFile, action))
  }

  function ExecutePlan(n: Local, actions: seq<HaAction>, faults: seq<Fault>, stopOnError: bool): Local
    requires |faults| == |actions|
    decreases |actions|
  {
    if actions == [] then n
    else
      var n' := Execute(n, actions[0], faults[0]);
      if faults[0] != NoFault && stopOnError then n' else ExecutePlan(n', actions[1..], faults[1..], stopOnError)
  }

  /** The calls that completed. */
  function Completed(actions: seq<HaAction>, faults: seq<Fault>, stopOnError: bool): nat
    requires |faults| == |actions|
  {
    if actions == [] then 0
    else if faults[0] != NoFault && stopOnError then 0
    else (if faults[0] == NoFault then 1 else 0) + Completed(actions[1..], faults[1..], stopOnError)
  }

  /** The lease store at the end of an iteration. */
  function StoreLease(n: Local, lease: Option<LeaseRecord>): Local {
    n.(shared := n.shared.(lease := lease, leader := if lease.Some? then Some(lease.value.holder) else None))
  }

  /** What reading the lease returned. */
  datatype LeaseRead = Read(lease: Option<LeaseRecord>) | ReadFailed

  function LeaseSeen(read: LeaseRead): Option<LeaseRecord> {
    if read.ReadFailed? then None else read.lease
  }

  datatype NodeState = NodeState(runtime: Runtime, local: Local)

  /** Everything one loop iteration depends on besides the node's own state. */
  datatype Iteration = Iteration(freshness: Option<FreshnessLedger>, now: nat, read: LeaseRead, minSource: nat,
                                 config: PromotionConfig, faults: seq<Fault>, stopOnError: bool)

  function Given(it: Iteration): Inputs {
    Inputs(it.now, LeaseSeen(it.read), it.minSource, it.config)
  }

  function Result(s: NodeState, it: Iteration): (Runtime, Outcome) {
    Reconcile(s.runtime.(freshness := it.freshness), Given(it))
  }

  function PlanIn(s: NodeState, it: Iteration): seq<HaAction> {
    ActionsFor(Result(s, it).1)
  }

  function Iterate(s: NodeState, it: Iteration): NodeState
    requires |it.faults| == |PlanIn(s, it)|
  {
    var (rt, outcome) := Result(s, it);
    var lease := if it.read.ReadFailed? then None else LeaseFromObservation(outcome.observation);
    NodeState(rt, StoreLease(ExecutePlan(s.local, ActionsFor(outcome), it.faults, it.stopOnError), lease))
  }

  predicate ErrorFree(it: Iteration) {
    forall i :: 0 <= i < |it.faults| ==> it.faults[i] == NoFault
  }

  // ----- The node as an object -----

  class Node {
    const runtime: HaRuntime
    var local: Local

    ghost function View(): NodeState
      reads this, runtime
    {
      NodeState(runtime.View(), local)
    }

    constructor (node: NodeId)
      ensures View() == NodeState(NewRuntime(node), NewLocal(node))
      ensures local == Local(Shared(node, Replica, 0, None, None), false, NoRoleFile)
      ensures fresh(runtime) && runtime.node == node && runtime.role == Replica && runtime.generation == 0
    {
      runtime := new HaRuntime(node);
      local := NewLocal(node);
    }

    /** `execute_controller_plan`: run the actions in order, collecting failures. */
    method RunPlan(actions: seq<HaAction>, faults: seq<Fault>, stopOnError: bool) returns (failures: seq<HaAction>)
      requires |faults| == |actions|
      modifies this
      ensures local == ExecutePlan(old(local), actions, faults, stopOnError)
      ensures failures == [] <==> forall i :: 0 <= i < |faults| ==> faults[i] == NoFault
      ensures forall a :: a in failures ==> exists i :: 0 <= i < |actions| && actions[i] == a && faults[i] != NoFault
      ensures !stopOnError ==> forall i :: 0 <= i < |actions| && faults[i] != NoFault ==> actions[i] in failures
      ensures stopOnError ==> |failures| <= 1
    {
      failures := [];
      var i := 0;
      while i < |actions|
        invariant 0 <= i <= |actions|
        invariant ExecutePlan(local, actions[i..], faults[i..], stopOnError) ==
                  ExecutePlan(old(local), actions, faults, stopOnError)
        invariant failures == [] <==> forall j :: 0 <= j < i ==> faults[j] == NoFault
        invariant forall a :: a in failures ==> exists j :: 0 <= j < i && actions[j] == a && faults[j] != NoFault
        invariant forall j :: 0 <= j < i && faults[j] != NoFault ==> actions[j] in failures
        invariant stopOnError ==> failures == []
      {
        assert actions[i..][1..] == actions[i + 1..] && faults[i..][1..] == faults[i + 1..];
        local := Execute(local, actions[i], faults[i]);
        if faults[i] != NoFault {
          failures := failures + [actions[i]];
          if stopOnError {
            return;
          }
        }
        i := i + 1;
      }
    }

    /** One pass of the control loop. */
    method RunIteration(it: Iteration) returns (ok: bool)
      requires |it.faults| == |PlanIn(View(), it)|
      modifies this, runtime
      ensures View() == Iterate(old(View()), it)
      ensures ok <==> ErrorFree(it)
    {
      runtime.UpdateFreshness(it.freshness);
      var outcome, actions := runtime.PlanActions(it.now, LeaseSeen(it.read), it.minSource, it.config);
      var failures := RunPlan(actions, it.faults, it.stopOnError);
      var lease := if it.read.ReadFailed? then None else LeaseFromObservation(outcome.observation);
      local := StoreLease(local, lease);
      ok := failures == [];
    }
  }

  // ----- What one call leaves behind -----

  /** The gateway admits a write iff it is writer and holds an unexpired lease at its own
      generation. */
  lemma AdmitsExactlyWhen(st: Shared, now: nat)
    requires now <= U64_MAX
    ensures CheckWriteAccess(st, now) ==
            if && st.role == Writer && st.lease.Some? && st.lease.value.holder == st.node
               && st.lease.value.generation == st.generation
               && now <= st.lease.value.renewedAt + st.lease.value.ttl
            then Some(st.generation) else None
  {
  }

  /** A call that fails leaves behind what came before the fault: the role file is written
      first, the audit log next, then readiness is set, and the gateway follows last. */
  lemma EffectsInOrder(n: Local, g: nat, reason: DemotionReason, fault: Fault)
    ensures var t := Execute(n, EnableWriter(g), fault);
            && t.roleFile == (if fault == RoleFileFault then n.roleFile else SaysWriter(g))
            && t.ready == (if fault == RoleFileFault || fault == AuditFault then n.ready else true)
            && t.shared == (if fault == NoFault then n.shared.(role := Writer, generation := g) else n.shared)
    ensures var t := Execute(n, DisableWriter(reason), fault);
            && t == Execute(n, EnsureReplica, fault)
            && t.roleFile == (if fault == RoleFileFault then n.roleFile else SaysReplica)
            && t.ready == (if fault == RoleFileFault || fault == AuditFault then n.ready else false)
            && t.shared == (if fault == NoFault then n.shared.(role := Replica) else n.shared)
  {
  }

  // ----- How the shared state follows the runtime -----

  /** Every action of a plan drives the shared role to the role the runtime now has. */
  lemma PlanSetsRole(s: NodeState, it: Iteration)
    ensures var (rt, plan) := (Result(s, it).0, PlanIn(s, it));
            && plan != []
            && forall i :: 0 <= i < |plan| ==>
                 && SharedAfter(s.local.shared, plan[i]).role == rt.role
                 && ReadyAfter(plan[i]) == (rt.role == Writer)
                 && (plan[i].EnableWriter? ==> plan == [EnableWriter(rt.generation)] && rt.role == Writer)
  {
  }

  /** One plan, any faults: the shared role becomes the target if some call completed and
      is unchanged otherwise; node, lease and leader are untouched. */
  lemma {:induction false} RoleAfterPlan(n: Local, actions: seq<HaAction>, faults: seq<Fault>,
                                         stopOnError: bool, target: NodeRole)
    requires |faults| == |actions|
    requires forall i :: 0 <= i < |actions| ==> ReadyAfter(actions[i]) == (target == Writer)
    ensures var n' := ExecutePlan(n, actions, faults, stopOnError);
            && n'.shared.role == (if Completed(actions, faults, stopOnError) > 0 then target else n.shared.role)
            && n'.shared.node == n.shared.node && n'.shared.lease == n.shared.lease
            && n'.shared.leader == n.shared.leader
            && (actions != [] && (forall i :: 0 <= i < |faults| ==> faults[i] == NoFault) ==>
                  n'.ready == (target == Writer) && Completed(actions, faults, stopOnError) == |actions|)
    decreases |actions|
  {
    if actions != [] {
      var n1 := Execute(n, actions[0], faults[0]);
      if !(faults[0] != NoFault && stopOnError) {
        RoleAfterPlan(n1, actions[1..], faults[1..], stopOnError, target);
        assert (forall i :: 0 <= i < |faults| ==> faults[i] == NoFault) ==>
          forall i :: 0 <= i < |faults[1..]| ==> faults[1..][i] == NoFault;
      }
    }
  }

  /** The exact law for the shared role, whatever fails: it agrees with the runtime after
      an iteration iff some executor call completed or it agreed already.  The shared lease
      always equals the runtime's. */
  lemma RoleFollowsRuntime(s: NodeState, it: Iteration)
    requires |it.faults| == |PlanIn(s, it)|
    ensures var t := Iterate(s, it);
            && t.local.shared.lease == t.runtime.lease
            && (t.local.shared.role == t.runtime.role <==>
                  Completed(PlanIn(s, it), it.faults, it.stopOnError) > 0 || s.local.shared.role == t.runtime.role)
  {
    PlanSetsRole(s, it);
    RoleAfterPlan(s.local, PlanIn(s, it), it.faults, it.stopOnError, Result(s, it).0.role);
  }

  /** A promotion is in the plan and its executor call did not complete. */
  predicate PromotionLost(s: NodeState, it: Iteration)
    requires |it.faults| == |PlanIn(s, it)|
  {
    exists i :: 0 <= i < |it.faults| && PlanIn(s, it)[i].EnableWriter? && it.faults[i] != NoFault
  }

  function RoleFileFor(rt: Runtime): RoleFile {
    if rt.role == Writer then SaysWriter(rt.generation) else SaysReplica
  }

  /** After an error-free iteration the role, lease and readiness flag agree with the
      runtime, and the gateway never admits more than the runtime allows.  But the gateway
      admits writes exactly when the runtime is writer only if, on a tick that merely keeps
      the writer, the shared generation was right before: such a tick never repairs it.
      The role file has the same gap. */
  lemma ErrorFreeIteration(s: NodeState, it: Iteration)
    requires |it.faults| == |PlanIn(s, it)| && ErrorFree(it) && s.local.shared.node == s.runtime.node
    ensures var t := Iterate(s, it);
            var kept := Result(s, it).1.decision.KeepWriter?;
            && t.local.shared.role == t.runtime.role && t.local.shared.lease == t.runtime.lease
            && t.local.ready == (t.runtime.role == Writer)
            && (IsWriter(t.local.shared, it.now) ==> t.runtime.role == Writer)
            && ((IsWriter(t.local.shared, it.now) <==> t.runtime.role == Writer) <==>
                  (kept ==> s.local.shared.generation == s.runtime.generation))
            && (t.local.roleFile == RoleFileFor(t.runtime) <==> (kept ==> s.local.roleFile == RoleFileFor(s.runtime)))
  {
    RoleFollowsRuntime(s, it);
    PlanSetsRole(s, it);
    var plan := PlanIn(s, it);
    RoleAfterPlan(s.local, plan, it.faults, it.stopOnError, Result(s, it).0.role);
    SmallPlan(s.local, plan, it.faults, it.stopOnError);
    assert |it.faults| > 0 && it.faults[0] == NoFault;
    assert |it.faults| == 2 ==> it.faults[1] == NoFault;
  }

  /** Plans have one or two actions; unfold them. */
  lemma SmallPlan(n: Local, actions: seq<HaAction>, faults: seq<Fault>, stopOnError: bool)
    requires 1 <= |actions| == |faults| <= 2
    ensures var n1 := Execute(n, actions[0], faults[0]);
            ExecutePlan(n, actions, faults, stopOnError) ==
            if |actions| == 1 || (faults[0] != NoFault && stopOnError) then n1 else Execute(n1, actions[1], faults[1])
  {
    var n1 := Execute(n, actions[0], faults[0]);
    assert ExecutePlan(n1, [], [], stopOnError) == n1;
    if |actions| == 2 {
      var n2 := Execute(n1, actions[1], faults[1]);
      assert actions[1..] == [actions[1]] && faults[1..] == [faults[1]];
      assert ExecutePlan(n2, [], [], stopOnError) == n2;
      assert [actions[1]][1..] == [] && [faults[1]][1..] == [];
      assert ExecutePlan(n1, [actions[1]], [faults[1]], stopOnError) == n2;
    }
  }

  // ----- Whole runs -----

  ghost predicate Runs(its: seq<Iteration>, states: seq<NodeState>, node: NodeId) {
    && |states| == |its| + 1
    && states[0] == NodeState(NewRuntime(node), NewLocal(node))
    && forall i :: 0 <= i < |its| ==> StepsAt(its, states, i)
  }

  ghost predicate StepsAt(its: seq<Iteration>, states: seq<NodeState>, i: nat)
    requires i < |its| && |states| == |its| + 1
  {
    |its[i].faults| == |PlanIn(states[i], its[i])| && states[i + 1] == Iterate(states[i], its[i])
  }

  /** A lost promotion among the iterations `lo..hi`. */
  ghost predicate LostBetween(its: seq<Iteration>, states: seq<NodeState>, lo: nat, hi: nat)
    requires hi <= |its| && |states| == |its| + 1
  {
    exists i :: lo <= i < hi && LostAt(its, states, i)
  }

  ghost predicate LostAt(its: seq<Iteration>, states: seq<NodeState>, i: nat)
    requires i < |its| && |states| == |its| + 1
  {
    |its[i].faults| == |PlanIn(states[i], its[i])| && PromotionLost(states[i], its[i])
  }

  ghost predicate DoneAt(its: seq<Iteration>, states: seq<NodeState>, i: nat)
    requires i < |its| && |states| == |its| + 1
  {
    |its[i].faults| == |PlanIn(states[i], its[i])| && PromotionDone(states[i], its[i])
  }

  predicate InSync(s: NodeState) {
    && s.local.shared.node == s.runtime.node
    && s.local.shared.generation == s.runtime.generation
    && (s.runtime.role == Writer ==> s.local.roleFile == SaysWriter(s.runtime.generation))
  }

  lemma SyncKept(s: NodeState, it: Iteration)
    requires InSync(s) && |it.faults| == |PlanIn(s, it)| && !PromotionLost(s, it)
    ensures InSync(Iterate(s, it))
  {
    PlanSetsRole(s, it);
    SmallPlan(s.local, PlanIn(s, it), it.faults, it.stopOnError);
  }

  /** A promotion is in the plan and its executor call completed. */
  predicate PromotionDone(s: NodeState, it: Iteration)
    requires |it.faults| == |PlanIn(s, it)|
  {
    exists i :: 0 <= i < |it.faults| && PlanIn(s, it)[i].EnableWriter? && it.faults[i] == NoFault
  }

  /** A completed promotion brings everything in line, whatever went wrong before. */
  lemma PromotionSyncs(s: NodeState, it: Iteration)
    requires s.local.shared.node == s.runtime.node && |it.faults| == |PlanIn(s, it)| && PromotionDone(s, it)
    ensures InSync(Iterate(s, it)) && Iterate(s, it).local.shared.generation == Iterate(s, it).runtime.generation
  {
    PlanSetsRole(s, it);
    SmallPlan(s.local, PlanIn(s, it), it.faults, it.stopOnError);
  }

  lemma {:induction false} NodeKept(its: seq<Iteration>, states: seq<NodeState>, node: NodeId, n: nat)
    requires Runs(its, states, node) && n <= |its|
    ensures states[n].local.shared.node == states[n].runtime.node == node
  {
    if n > 0 {
      NodeKept(its, states, node, n - 1);
      assert StepsAt(its, states, n - 1);
      NodeStep(states[n - 1], its[n - 1]);
    }
  }

  lemma NodeStep(s: NodeState, it: Iteration)
    requires |it.faults| == |PlanIn(s, it)|
    ensures Iterate(s, it).local.shared.node == s.local.shared.node && Iterate(s, it).runtime.node == s.runtime.node
  {
    PlanSetsRole(s, it);
    SmallPlan(s.local, PlanIn(s, it), it.faults, it.stopOnError);
  }

  lemma {:induction false} SyncedRun(its: seq<Iteration>, states: seq<NodeState>, node: NodeId, start: nat, n: nat)
    requires Runs(its, states, node) && start <= n <= |its|
    requires start == 0 || DoneAt(its, states, start - 1)
    requires !LostBetween(its, states, start, n)
    ensures InSync(states[n])
    decreases n
  {
    if n == start {
      if start > 0 {
        NodeKept(its, states, node, n - 1);
        assert StepsAt(its, states, n - 1);
        PromotionSyncs(states[n - 1], its[n - 1]);
      }
    } else {
      SyncedRun(its, states, node, start, n - 1);
      assert StepsAt(its, states, n - 1) && !LostAt(its, states, n - 1);
      SyncKept(states[n - 1], its[n - 1]);
    }
  }

  /** In every run and whatever fails, the gateway knows the lease that was last read and
      names its holder as leader; after a failed read, or without a lease, it names none. */
  lemma LeaderIsHolder(its: seq<Iteration>, states: seq<NodeState>, node: NodeId, n: nat)
    requires Runs(its, states, node) && n < |its|
    ensures var st := states[n + 1].local.shared;
            match its[n].read
            case Read(Some(lease)) => st.leader == Some(lease.holder) && st.lease == Some(lease)
            case _ => st.leader == None && st.lease == None
  {
    assert StepsAt(its, states, n);
  }

  /** As long as no promotion was lost since the run began, or since some promotion that
      completed, and whatever else failed, every error-free iteration ends with gateway,
      readiness and role file exactly following the runtime. */
  lemma SharedRefinesRuntime(its: seq<Iteration>, states: seq<NodeState>, node: NodeId, start: nat, n: nat)
    requires Runs(its, states, node) && start <= n < |its| && ErrorFree(its[n])
    requires start == 0 || DoneAt(its, states, start - 1)
    requires !LostBetween(its, states, start, n)
    ensures var s := states[n + 1];
            && s.local.shared.role == s.runtime.role
            && s.local.shared.generation == s.runtime.generation
            && s.local.shared.lease == s.runtime.lease
            && (IsWriter(s.local.shared, its[n].now) <==> s.runtime.role == Writer)
            && s.local.ready == (s.runtime.role == Writer)
            && s.local.roleFile == RoleFileFor(s.runtime)
  {
    SyncedRun(its, states, node, start, n);
    assert StepsAt(its, states, n);
    ErrorFreeIteration(states[n], its[n]);
    SyncKept(states[n], its[n]);
  }

  /** The generation of the last promotion that completed in the first `n` iterations. */
  ghost function LastEnabled(its: seq<Iteration>, states: seq<NodeState>, n: nat): nat
    requires n <= |its| && |states| == |its| + 1
  {
    if n == 0 then 0
    else if DoneAt(its, states, n - 1) then states[n].runtime.generation
    else LastEnabled(its, states, n - 1)
  }

  lemma SharedGenerationStep(s: NodeState, it: Iteration)
    requires |it.faults| == |PlanIn(s, it)|
    ensures var t := Iterate(s, it);
            t.local.shared.generation ==
            if PromotionDone(s, it) then t.runtime.generation else s.local.shared.generation
  {
    PlanSetsRole(s, it);
    var plan := PlanIn(s, it);
    SmallPlan(s.local, plan, it.faults, it.stopOnError);
    if plan[0].EnableWriter? && it.faults[0] == NoFault {
      assert PromotionDone(s, it);
    }
  }

  /** In every run the gateway's generation is that of the last promotion that completed. */
  lemma {:induction false} SharedGeneration(its: seq<Iteration>, states: seq<NodeState>, node: NodeId, n: nat)
    requires Runs(its, states, node) && n <= |its|
    ensures states[n].local.shared.generation == LastEnabled(its, states, n)
  {
    if n > 0 {
      SharedGeneration(its, states, node, n - 1);
      assert StepsAt(its, states, n - 1);
      SharedGenerationStep(states[n - 1], its[n - 1]);
    }
  }

  /** The exact law over whole runs: after an error-free iteration the gateway admits writes
      exactly when the runtime is writer iff the last promotion that completed is the one
      the runtime writes under. */
  lemma AdmissionExactlyWhen(its: seq<Iteration>, states: seq<NodeState>, node: NodeId, n: nat)
    requires Runs(its, states, node) && n < |its| && ErrorFree(its[n])
    ensures var s := states[n + 1];
            (IsWriter(s.local.shared, its[n].now) <==> s.runtime.role == Writer) <==>
            (s.runtime.role == Writer ==> LastEnabled(its, states, n + 1) == s.runtime.generation)
  {
    NodeKept(its, states, node, n);
    assert StepsAt(its, states, n);
    ErrorFreeIteration(states[n], its[n]);
    SharedGeneration(its, states, node, n + 1);
    SharedGenerationStep(states[n], its[n]);
    WriterKeptOrPromoted(states[n], its[n]);
  }

  lemma WriterKeptOrPromoted(s: NodeState, it: Iteration)
    requires |it.faults| == |PlanIn(s, it)| && ErrorFree(it)
    ensures var (t, kept) := (Iterate(s, it), Result(s, it).1.decision.KeepWriter?);
            && (t.runtime.role == Writer && !kept ==> PromotionDone(s, it))
            && (kept ==>
                  && t.runtime.role == Writer && t.runtime.generation == s.runtime.generation
                  && !PromotionDone(s, it))
  {
    var plan := PlanIn(s, it);
    if plan[0].EnableWriter? {
      assert it.faults[0] == NoFault;
    }
  }

  /** Losing one promotion is enough to break it: the lease is granted, writing the role
      file fails once, and the next, error-free iteration keeps a writer that the gateway
      refuses. */
  lemma LostPromotionSticks() returns (its: seq<Iteration>, states: seq<NodeState>)
    ensures Runs(its, states, "a") && |its| == 2 && ErrorFree(its[1])
    ensures states[2].runtime.role == Writer && !IsWriter(states[2].local.shared, its[1].now)
    ensures states[2].local.roleFile != SaysWriter(states[2].runtime.generation)
  {
    var lease := LeaseRecord("a", 1, 0, 100);
    var ledger := Some(FreshnessLedger("b", 0, 0));
    var first := Iteration(ledger, 0, Read(Some(lease)), 0, PromotionConfig(10, 2), [RoleFileFault], true);
    var second := first.(faults := [NoFault]);
    its := [first, second];
    var s0 := NodeState(NewRuntime("a"), NewLocal("a"));
    assert PlanIn(s0, first) == [EnableWriter(1)];
    SmallPlan(s0.local, PlanIn(s0, first), first.faults, true);
    var s1 := Iterate(s0, first);
    assert PlanIn(s1, second) == [ContinueWriter];
    SmallPlan(s1.local, PlanIn(s1, second), second.faults, true);
    states := [s0, s1, Iterate(s1, second)];
  }
}
