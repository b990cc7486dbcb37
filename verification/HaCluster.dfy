/** A cluster of nodes around one lease register.

    The register is outside the repository, so its rules are assumptions here, written as
    guards of the `Grant` event: a record for a new holder is granted only `margin` seconds
    after every record of another holder has expired, and one generation has one holder; an
    `ordered` register never lowers the generation either.  A read may fail or return any
    record granted so far; with `monotone` reads no node is ever shown an older record than
    before.  A node's clock may be behind by at most `lag` seconds. */
module HaCluster {
  import opened Basics
  import opened HaPolicy
  import opened HaNode

  datatype Params = Params(margin: nat, lag: nat, ordered: bool, monotone: bool, stopOnError: bool)

  /** A record in the register, with the time it was granted. */
  datatype Entry = Entry(rec: LeaseRecord, at: nat)

  /** A tick under way: the actions still to run and the lease to store afterwards.
      `entry` numbers the register entry it came from, from 1. */
  datatype Pending = Pending(actions: seq<HaAction>, lease: Option<LeaseRecord>, entry: nat)

  /** A node, with the numbers of the entry it has stored and of the newest it has read. */
  datatype Member = Member(runtime: Runtime, local: Local, pending: Option<Pending>, stored: nat, seen: nat)

  datatype Admission = Admission(node: NodeId, generation: nat, entry: nat)

  datatype Cluster = Cluster(now: nat, log: seq<Entry>, members: map<NodeId, Member>, admitted: seq<Admission>)

  datatype Event =
    | Advance(seconds: nat)
    | Grant(rec: LeaseRecord)
    | Poll(node: NodeId, clock: nat, read: Option<nat>, freshness: Option<FreshnessLedger>, minSource: nat,
           config: PromotionConfig)
    | Act(node: NodeId, fault: Fault)
    | Store(node: NodeId)
    | Write(node: NodeId, clock: nat)
    | Restart(node: NodeId)

  function NewMember(node: NodeId, seen: nat): Member {
    Member(NewRuntime(node), NewLocal(node), None, 0, seen)
  }

  function Boot(nodes: set<NodeId>): Cluster {
    Cluster(0, [], map n | n in nodes :: NewMember(n, 0), [])
  }

  predicate MayGrant(p: Params, s: Cluster, rec: LeaseRecord) {
    forall i :: 0 <= i < |s.log| ==>
      && (s.log[i].rec.holder != rec.holder ==>
            s.now > Min(s.log[i].rec.renewedAt + s.log[i].rec.ttl, U64_MAX) + p.margin)
      && (p.ordered ==> s.log[i].rec.generation <= rec.generation)
      && (s.log[i].rec.generation == rec.generation ==> s.log[i].rec.holder == rec.holder)
  }

  predicate ClockOk(p: Params, s: Cluster, clock: nat) {
    s.now <= clock + p.lag
  }

  predicate MayRead(p: Params, s: Cluster, m: Member, read: Option<nat>) {
    read.Some? ==> read.value < |s.log| && (p.monotone ==> m.seen <= read.value + 1)
  }

  /** Reading the lease and reconciling.  A failed or empty read yields no lease. */
  function Polled(m: Member, log: seq<Entry>, ev: Event): Member
    requires ev.Poll? && (ev.read.Some? ==> ev.read.value < |log|)
  {
    var lease := if ev.read.Some? then Some(log[ev.read.value].rec) else None;
    var rt := m.runtime.(freshness := ev.freshness);
    var (rt', outcome) := Reconcile(rt, Inputs(ev.clock, lease, ev.minSource, ev.config));
    var entry := if ev.read.Some? then ev.read.value + 1 else 0;
    m.(runtime := rt', seen := Max(m.seen, entry),
       pending := Some(Pending(ActionsFor(outcome), LeaseFromObservation(outcome.observation), entry)))
  }

  function Acted(p: Params, m: Member, fault: Fault): Member
    requires m.pending.Some? && m.pending.value.actions != []
  {
    var actions := m.pending.value.actions;
    var rest := if fault != NoFault && p.stopOnError then [] else actions[1..];
    m.(local := Execute(m.local, actions[0], fault), pending := Some(m.pending.value.(actions := rest)))
  }

  function Stored(m: Member): Member
    requires m.pending.Some?
  {
    var w := m.pending.value;
    m.(local := StoreLease(m.local, w.lease), pending := None, stored := if w.lease.Some? then w.entry else m.stored)
  }

  /** The actions of a tick one after the other, with what happens to each. */
  function ActedAll(p: Params, m: Member, faults: seq<Fault>): (m': Member)
    requires m.pending.Some? && |faults| == |m.pending.value.actions|
    ensures m'.pending.Some?
    decreases |faults|
  {
    if faults == [] then m
    else
      var next := Acted(p, m, faults[0]);
      ActedAll(p, next, if next.pending.value.actions == [] then [] else faults[1..])
  }

  lemma {:induction false} ActedAllIsPlan(p: Params, m: Member, faults: seq<Fault>)
    requires m.pending.Some? && |faults| == |m.pending.value.actions|
    ensures ActedAll(p, m, faults) == m.(local := ExecutePlan(m.local, m.pending.value.actions, faults, p.stopOnError),
                                         pending := Some(m.pending.value.(actions := [])))
    decreases |faults|
  {
    if faults != [] {
      var m' := Acted(p, m, faults[0]);
      var rest := m'.pending.value.actions;
      if rest == [] {
        ActedAllIsPlan(p, m', []);
        assert faults[1..] == [] || (faults[0] != NoFault && p.stopOnError);
      } else {
        ActedAllIsPlan(p, m', faults[1..]);
      }
    }
  }

  /** The events of one tick of a node amount to one iteration of its control loop. */
  lemma TickIsIteration(p: Params, m: Member, log: seq<Entry>, ev: Event, it: Iteration)
    requires ev.Poll? && (ev.read.Some? ==> ev.read.value < |log|)
    requires it.freshness == ev.freshness && it.now == ev.clock
    requires it.minSource == ev.minSource && it.config == ev.config
    requires if ev.read.Some? then it.read == Read(Some(log[ev.read.value].rec))
             else it.read == ReadFailed || it.read == Read(None)
    requires it.stopOnError == p.stopOnError && |it.faults| == |PlanIn(NodeState(m.runtime, m.local), it)|
    ensures var polled := Polled(m, log, ev);
            && |it.faults| == |polled.pending.value.actions|
            && var done := Stored(ActedAll(p, polled, it.faults));
               NodeState(done.runtime, done.local) == Iterate(NodeState(m.runtime, m.local), it) && done.pending.None?
  {
    var polled := Polled(m, log, ev);
    ActedAllIsPlan(p, polled, it.faults);
  }

  predicate Enabled(p: Params, s: Cluster, ev: Event) {
    match ev
    case Advance(_) => true
    case Grant(rec) => MayGrant(p, s, rec)
    case Poll(n, clock, read, _, _, _) =>
      n in s.members && s.members[n].pending.None? && ClockOk(p, s, clock) && MayRead(p, s, s.members[n], read)
    case Act(n, _) => n in s.members && s.members[n].pending.Some? && s.members[n].pending.value.actions != []
    case Store(n) => n in s.members && s.members[n].pending.Some? && s.members[n].pending.value.actions == []
    case Write(n, clock) => n in s.members && ClockOk(p, s, clock)
    case Restart(n) => n in s.members
  }

  function Apply(p: Params, s: Cluster, ev: Event): Cluster
    requires Enabled(p, s, ev)
  {
    match ev
    case Advance(seconds) => s.(now := s.now + seconds)
    case Grant(rec) => s.(log := s.log + [Entry(rec, s.now)])
    case Poll(n, _, _, _, _, _) => s.(members := s.members[n := Polled(s.members[n], s.log, ev)])
    case Act(n, fault) => s.(members := s.members[n := Acted(p, s.members[n], fault)])
    case Store(n) => s.(members := s.members[n := Stored(s.members[n])])
    case Write(n, clock) =>
      var access := CheckWriteAccess(s.members[n].local.shared, clock);
      if access.None? then s else s.(admitted := s.admitted + [Admission(n, access.value, s.members[n].stored)])
    case Restart(n) => s.(members := s.members[n := NewMember(n, s.members[n].seen)])
  }

  /** A run: each event enabled when it happens. */
  ghost predicate Reaches(p: Params, nodes: set<NodeId>, events: seq<Event>, s: Cluster)
    decreases |events|
  {
    if events == [] then s == Boot(nodes)
    else exists before :: ReachesBy(p, nodes, events, before, s)
  }

  ghost predicate ReachesBy(p: Params, nodes: set<NodeId>, events: seq<Event>, before: Cluster, s: Cluster)
    requires events != []
    decreases |events|, 0
  {
    var last := events[|events| - 1];
    Reaches(p, nodes, events[..|events| - 1], before) && Enabled(p, before, last) && s == Apply(p, before, last)
  }

  // ----- Invariant -----

  ghost predicate RegisterOk(p: Params, s: Cluster) {
    && (forall i :: 0 <= i < |s.log| ==> s.log[i].at <= s.now)
    && (forall i, j :: 0 <= i < j < |s.log| ==> Ordered(p, s.log[i], s.log[j]))
  }

  predicate Ordered(p: Params, a: Entry, b: Entry) {
    && (a.rec.holder != b.rec.holder ==> b.at > Min(a.rec.renewedAt + a.rec.ttl, U64_MAX) + p.margin)
    && (p.ordered ==> a.rec.generation <= b.rec.generation)
    && (a.rec.generation == b.rec.generation ==> a.rec.holder == b.rec.holder)
  }

  /** The leases a member keeps are register entries it has read. */
  predicate MemberOk(s: Cluster, n: NodeId, m: Member) {
    && m.runtime.node == n && m.local.shared.node == n && m.stored <= m.seen <= |s.log|
    && (m.local.shared.lease.Some? ==> 1 <= m.stored && s.log[m.stored - 1].rec == m.local.shared.lease.value)
    && (m.pending.Some? ==> m.pending.value.entry <= m.seen)
    && (m.pending.Some? && m.pending.value.lease.Some? ==>
          1 <= m.pending.value.entry && s.log[m.pending.value.entry - 1].rec == m.pending.value.lease.value)
  }

  predicate AdmissionOk(s: Cluster, a: Admission) {
    && 1 <= a.entry <= |s.log|
    && s.log[a.entry - 1].rec.holder == a.node && s.log[a.entry - 1].rec.generation == a.generation
  }

  ghost predicate Inv(p: Params, s: Cluster) {
    && RegisterOk(p, s)
    && (forall n :: n in s.members ==> MemberOk(s, n, s.members[n]))
    && (forall i :: 0 <= i < |s.admitted| ==> AdmissionOk(s, s.admitted[i]))
  }

  /** With sound clocks, admissions of different nodes follow the register. */
  ghost predicate NodesInOrder(s: Cluster) {
    forall i, j :: 0 <= i < j < |s.admitted| ==> InOrder(s.admitted[i], s.admitted[j])
  }

  predicate InOrder(a: Admission, b: Admission) {
    a.node != b.node ==> a.entry < b.entry
  }

  /** What a member may still admit is no older than what it has admitted. */
  predicate NotOlder(m: Member, a: Admission) {
    && a.entry <= m.seen
    && (m.local.shared.lease.Some? ==> a.entry <= m.stored)
    && (m.pending.Some? && m.pending.value.lease.Some? ==> a.entry <= m.pending.value.entry)
  }

  /** With monotone reads, all admissions follow the register. */
  ghost predicate Fenced(s: Cluster) {
    && (forall i :: 0 <= i < |s.admitted| && s.admitted[i].node in s.members ==>
          NotOlder(s.members[s.admitted[i].node], s.admitted[i]))
    && (forall i, j :: 0 <= i < j < |s.admitted| ==> s.admitted[i].entry <= s.admitted[j].entry)
    && (forall n :: n in s.members ==> Advancing(s.members[n]))
  }

  /** The lease under way is no older than the stored one. */
  predicate Advancing(m: Member) {
    m.pending.Some? && m.pending.value.lease.Some? ==> m.stored <= m.pending.value.entry
  }

  /** An executor call, failing or not, keeps node and lease of the shared state. */
  lemma ExecuteKeepsLease(n: Local, action: HaAction, fault: Fault)
    ensures Execute(n, action, fault).shared.node == n.shared.node
    ensures Execute(n, action, fault).shared.lease == n.shared.lease
  {
  }

  /** Updating one member. */
  lemma MemberChanges(p: Params, s: Cluster, n: NodeId, m: Member)
    requires Inv(p, s) && MemberOk(s, n, m)
    ensures Inv(p, s.(members := s.members[n := m]))
  {
    assert forall k :: k in s.members ==>
      MemberOk(s, k, s.members[k]) ==> MemberOk(s.(members := s.members[n := m]), k, s.members[k]);
    assert forall i :: 0 <= i < |s.admitted| ==>
      AdmissionOk(s, s.admitted[i]) ==> AdmissionOk(s.(members := s.members[n := m]), s.admitted[i]);
  }

  lemma MemberEventKeeps(p: Params, s: Cluster, ev: Event)
    requires Inv(p, s) && Enabled(p, s, ev) && (ev.Poll? || ev.Act? || ev.Store? || ev.Restart?)
    ensures Inv(p, Apply(p, s, ev))
  {
    var n := ev.node;
    var m := s.members[n];
    assert MemberOk(s, n, m);
    if ev.Act? {
      ExecuteKeepsLease(m.local, m.pending.value.actions[0], ev.fault);
    }
    MemberChanges(p, s, n, Apply(p, s, ev).members[n]);
  }

  lemma GrantKeeps(p: Params, s: Cluster, rec: LeaseRecord)
    requires Inv(p, s) && MayGrant(p, s, rec)
    ensures Inv(p, s.(log := s.log + [Entry(rec, s.now)]))
  {
    var t := s.(log := s.log + [Entry(rec, s.now)]);
    forall n | n in t.members ensures MemberOk(t, n, t.members[n]) {
      assert MemberOk(s, n, s.members[n]);
    }
    forall i | 0 <= i < |t.admitted| ensures AdmissionOk(t, t.admitted[i]) {
      assert AdmissionOk(s, s.admitted[i]);
    }
    forall i, j | 0 <= i < j < |t.log| ensures Ordered(p, t.log[i], t.log[j]) {
      assert j < |s.log| ==> Ordered(p, s.log[i], s.log[j]);
    }
  }

  /** The heart of it: a node whose check passes holds an entry at least as new as every
      entry any other node's lease or admission rests on. */
  lemma WriterIsNewest(p: Params, s: Cluster, n: NodeId, clock: nat, other: nat)
    requires Inv(p, s) && p.lag <= p.margin && n in s.members && ClockOk(p, s, clock)
    requires IsWriter(s.members[n].local.shared, clock)
    requires 1 <= other <= |s.log| && s.log[other - 1].rec.holder != n
    ensures other < s.members[n].stored
  {
    var m := s.members[n];
    assert MemberOk(s, n, m);
    var mine, theirs := s.log[m.stored - 1], s.log[other - 1];
    assert mine.rec == m.local.shared.lease.value && mine.rec.holder != theirs.rec.holder;
    assert m.stored < other ==> Ordered(p, mine, theirs);
  }

  lemma WriteKeeps(p: Params, s: Cluster, ev: Event)
    requires Inv(p, s) && ev.Write? && Enabled(p, s, ev)
    ensures Inv(p, Apply(p, s, ev))
  {
    var n := ev.node;
    var m := s.members[n];
    assert MemberOk(s, n, m);
    if IsWriter(m.local.shared, ev.clock) {
      AdmissionAppended(p, s, Admission(n, m.local.shared.generation, m.stored));
    }
  }

  lemma AdmissionAppended(p: Params, s: Cluster, a: Admission)
    requires Inv(p, s) && AdmissionOk(s, a)
    ensures Inv(p, s.(admitted := s.admitted + [a]))
  {
    var t := s.(admitted := s.admitted + [a]);
    assert forall n :: n in t.members ==> MemberOk(s, n, s.members[n]) ==> MemberOk(t, n, t.members[n]);
    assert forall i :: 0 <= i < |s.admitted| ==> AdmissionOk(s, s.admitted[i]) ==> AdmissionOk(t, s.admitted[i]);
  }

  lemma StepKeeps(p: Params, s: Cluster, ev: Event)
    requires Inv(p, s) && Enabled(p, s, ev)
    ensures Inv(p, Apply(p, s, ev))
  {
    match ev
    case Advance(seconds) => TimePasses(p, s, seconds);
    case Grant(rec) => GrantKeeps(p, s, rec);
    case Write(_, _) => WriteKeeps(p, s, ev);
    case _ => MemberEventKeeps(p, s, ev);
  }

  lemma TimePasses(p: Params, s: Cluster, seconds: nat)
    requires Inv(p, s)
    ensures Inv(p, s.(now := s.now + seconds))
  {
    var t := s.(now := s.now + seconds);
    assert forall n :: n in s.members ==> MemberOk(s, n, s.members[n]) ==> MemberOk(t, n, s.members[n]);
    assert forall i :: 0 <= i < |s.admitted| ==> AdmissionOk(s, s.admitted[i]) ==> AdmissionOk(t, s.admitted[i]);
  }

  lemma {:induction false} RunKeeps(p: Params, nodes: set<NodeId>, events: seq<Event>, s: Cluster)
    requires Reaches(p, nodes, events, s)
    ensures Inv(p, s)
    decreases |events|
  {
    if events != [] {
      var before :| ReachesBy(p, nodes, events, before, s);
      RunKeeps(p, nodes, events[..|events| - 1], before);
      StepKeeps(p, before, events[|events| - 1]);
    }
  }

  // ----- Sound clocks -----

  lemma NodesInOrderStep(p: Params, s: Cluster, ev: Event)
    requires p.lag <= p.margin && Inv(p, s) && NodesInOrder(s) && Enabled(p, s, ev)
    ensures NodesInOrder(Apply(p, s, ev))
  {
    if ev.Write? {
      var m := s.members[ev.node];
      if IsWriter(m.local.shared, ev.clock) {
        forall i | 0 <= i < |s.admitted| && s.admitted[i].node != ev.node ensures s.admitted[i].entry < m.stored {
          assert AdmissionOk(s, s.admitted[i]);
          WriterIsNewest(p, s, ev.node, ev.clock, s.admitted[i].entry);
        }
      }
    }
  }

  lemma {:induction false} NodesInOrderRun(p: Params, nodes: set<NodeId>, events: seq<Event>, s: Cluster)
    requires p.lag <= p.margin && Reaches(p, nodes, events, s)
    ensures NodesInOrder(s)
    decreases |events|
  {
    if events != [] {
      var before :| ReachesBy(p, nodes, events, before, s);
      RunKeeps(p, nodes, events[..|events| - 1], before);
      NodesInOrderRun(p, nodes, events[..|events| - 1], before);
      NodesInOrderStep(p, before, events[|events| - 1]);
    }
  }

  // ----- Monotone reads -----

  /** One node's event, as its own admissions see it. */
  lemma StaysNotOlder(p: Params, s: Cluster, ev: Event, a: Admission)
    requires p.monotone && Enabled(p, s, ev) && (ev.Poll? || ev.Act? || ev.Store? || ev.Restart?)
    requires MemberOk(s, ev.node, s.members[ev.node]) && NotOlder(s.members[ev.node], a)
    ensures NotOlder(Apply(p, s, ev).members[ev.node], a)
  {
    var m := s.members[ev.node];
    if ev.Act? {
      ExecuteKeepsLease(m.local, m.pending.value.actions[0], ev.fault);
    }
  }

  lemma FencedStep(p: Params, s: Cluster, ev: Event)
    requires p.monotone && p.lag <= p.margin && Inv(p, s) && Fenced(s) && Enabled(p, s, ev)
    ensures Fenced(Apply(p, s, ev))
  {
    if ev.Poll? || ev.Act? || ev.Store? || ev.Restart? {
      assert MemberOk(s, ev.node, s.members[ev.node]);
      forall i | 0 <= i < |s.admitted| && s.admitted[i].node in s.members
        ensures NotOlder(Apply(p, s, ev).members[s.admitted[i].node], s.admitted[i])
      {
        if s.admitted[i].node == ev.node {
          StaysNotOlder(p, s, ev, s.admitted[i]);
        }
      }
    } else if ev.Write? && IsWriter(s.members[ev.node].local.shared, ev.clock) {
      FencedWrite(p, s, ev);
    }
  }

  lemma FencedWrite(p: Params, s: Cluster, ev: Event)
    requires p.lag <= p.margin && Inv(p, s) && Fenced(s) && Enabled(p, s, ev)
    requires ev.Write? && IsWriter(s.members[ev.node].local.shared, ev.clock)
    ensures Fenced(Apply(p, s, ev))
  {
    var n := ev.node;
    var m := s.members[n];
    assert MemberOk(s, n, m);
    forall i | 0 <= i < |s.admitted| ensures s.admitted[i].entry <= m.stored {
      assert AdmissionOk(s, s.admitted[i]);
      if s.admitted[i].node == n {
        assert NotOlder(m, s.admitted[i]);
      } else {
        WriterIsNewest(p, s, n, ev.clock, s.admitted[i].entry);
      }
    }
    assert Advancing(m);
    var a := Admission(n, m.local.shared.generation, m.stored);
    assert Apply(p, s, ev) == s.(admitted := s.admitted + [a]) && NotOlder(m, a);
  }

  lemma {:induction false} FencedRun(p: Params, nodes: set<NodeId>, events: seq<Event>, s: Cluster)
    requires p.monotone && p.lag <= p.margin && Reaches(p, nodes, events, s)
    ensures Fenced(s)
    decreases |events|
  {
    if events != [] {
      var before :| ReachesBy(p, nodes, events, before, s);
      RunKeeps(p, nodes, events[..|events| - 1], before);
      FencedRun(p, nodes, events[..|events| - 1], before);
      FencedStep(p, before, events[|events| - 1]);
    }
  }

  // ----- Theorems -----

  /** At most one writer: in every reachable state, whatever ticks, renewals, transfers,
      failed or stale reads, failed executor calls, restarts and clock readings led there,
      no two nodes pass the gateway's check. */
  lemma SingleWriter(p: Params, nodes: set<NodeId>, events: seq<Event>, s: Cluster,
                     a: NodeId, b: NodeId, clockA: nat, clockB: nat)
    requires p.lag <= p.margin && Reaches(p, nodes, events, s)
    requires a in s.members && b in s.members && ClockOk(p, s, clockA) && ClockOk(p, s, clockB)
    requires IsWriter(s.members[a].local.shared, clockA) && IsWriter(s.members[b].local.shared, clockB)
    ensures a == b
  {
    RunKeeps(p, nodes, events, s);
    assert MemberOk(s, a, s.members[a]) && MemberOk(s, b, s.members[b]);
    var entryA, entryB := s.members[a].stored, s.members[b].stored;
    if a != b {
      WriterIsNewest(p, s, a, clockA, entryB);
      WriterIsNewest(p, s, b, clockB, entryA);
    }
  }

  /** One generation, one node: over the whole run, whatever clocks, reads and failures it
      has, two writes admitted under the same generation come from the same node. */
  lemma OneNodePerGeneration(p: Params, nodes: set<NodeId>, events: seq<Event>, s: Cluster, i: nat, j: nat)
    requires Reaches(p, nodes, events, s) && i <= j < |s.admitted|
    ensures s.admitted[i].generation == s.admitted[j].generation ==> s.admitted[i].node == s.admitted[j].node
  {
    RunKeeps(p, nodes, events, s);
    var x, y := s.admitted[i], s.admitted[j];
    assert AdmissionOk(s, x) && AdmissionOk(s, y);
    assert x.entry < y.entry ==> Ordered(p, s.log[x.entry - 1], s.log[y.entry - 1]);
    assert y.entry < x.entry ==> Ordered(p, s.log[y.entry - 1], s.log[x.entry - 1]);
  }

  /** Fencing between nodes: with sound clocks and an ordered register, over the whole run
      and whatever stale reads it has, a write admitted later by another node carries a
      higher generation. */
  lemma NodesFenced(p: Params, nodes: set<NodeId>, events: seq<Event>, s: Cluster, i: nat, j: nat)
    requires p.lag <= p.margin && p.ordered && Reaches(p, nodes, events, s) && i <= j < |s.admitted|
    ensures s.admitted[i].node != s.admitted[j].node ==> s.admitted[i].generation < s.admitted[j].generation
  {
    RunKeeps(p, nodes, events, s);
    NodesInOrderRun(p, nodes, events, s);
    var x, y := s.admitted[i], s.admitted[j];
    assert AdmissionOk(s, x) && AdmissionOk(s, y);
    assert i < j ==> InOrder(x, y);
    assert x.entry < y.entry ==> Ordered(p, s.log[x.entry - 1], s.log[y.entry - 1]);
  }

  /** Fencing order: with sound clocks, an ordered register and monotone reads the
      generations of admitted writes never go down over the whole run. */
  lemma AdmissionsFenced(p: Params, nodes: set<NodeId>, events: seq<Event>, s: Cluster, i: nat, j: nat)
    requires p.lag <= p.margin && p.ordered && p.monotone && Reaches(p, nodes, events, s) && i <= j < |s.admitted|
    ensures s.admitted[i].generation <= s.admitted[j].generation
  {
    RunKeeps(p, nodes, events, s);
    FencedRun(p, nodes, events, s);
    var x, y := s.admitted[i], s.admitted[j];
    assert AdmissionOk(s, x) && AdmissionOk(s, y);
    assert x.entry < y.entry ==> Ordered(p, s.log[x.entry - 1], s.log[y.entry - 1]);
  }

  // ----- The clock condition is needed -----

  lemma Extend(p: Params, nodes: set<NodeId>, events: seq<Event>, s: Cluster, ev: Event)
    requires Reaches(p, nodes, events, s) && Enabled(p, s, ev)
    ensures Reaches(p, nodes, events + [ev], Apply(p, s, ev))
  {
    var longer := events + [ev];
    assert longer[..|longer| - 1] == events;
    assert ReachesBy(p, nodes, longer, s, Apply(p, s, ev));
  }

  /** A new node that is shown an entry it holds becomes writer in three events. */
  lemma BecomesWriter(p: Params, nodes: set<NodeId>, events: seq<Event>, s: Cluster, n: NodeId, i: nat)
    returns (events': seq<Event>, s': Cluster)
    requires Reaches(p, nodes, events, s) && n in s.members && s.now <= p.lag && i < |s.log|
    requires s.members[n] == NewMember(n, s.members[n].seen) && (p.monotone ==> s.members[n].seen <= i + 1)
    requires s.log[i].rec.holder == n
    ensures Reaches(p, nodes, events', s') && s' == s.(members := s.members[n := WriterMember(s, n, i)])
    ensures IsWriter(s'.members[n].local.shared, 0)
  {
    var rec := s.log[i].rec;
    var poll := Poll(n, 0, Some(i), Some(FreshnessLedger(n, 0, 0)), 0, PromotionConfig(10, 2));
    var s1 := Apply(p, s, poll);
    Extend(p, nodes, events, s, poll);
    assert s1.members[n] == Member(Runtime(n, Writer, rec.generation, Some(rec), poll.freshness), NewLocal(n),
                                   Some(Pending([EnableWriter(rec.generation)], Some(rec), i + 1)), 0,
                                   Max(s.members[n].seen, i + 1));
    var act := Act(n, NoFault);
    var s2 := Apply(p, s1, act);
    Extend(p, nodes, events + [poll], s1, act);
    assert s2.members[n].pending.value.actions == [];
    var store := Store(n);
    s' := Apply(p, s2, store);
    Extend(p, nodes, events + [poll] + [act], s2, store);
    events' := events + [poll] + [act] + [store];
    assert s'.members[n] == WriterMember(s, n, i);
  }

  /** That node afterwards. */
  function WriterMember(s: Cluster, n: NodeId, i: nat): Member
    requires i < |s.log| && n in s.members
  {
    var rec := s.log[i].rec;
    Member(Runtime(n, Writer, rec.generation, Some(rec), Some(FreshnessLedger(n, 0, 0))),
           Local(Shared(n, Writer, rec.generation, Some(rec.holder), Some(rec)), true, SaysWriter(rec.generation)),
           None, i + 1, Max(s.members[n].seen, i + 1))
  }

  /** A clock that may lag by more than the register's margin admits two writers. */
  lemma LaggingClockTwoWriters(p: Params) returns (events: seq<Event>, s: Cluster)
    requires p.margin < p.lag
    ensures Reaches(p, {"a", "b"}, events, s) && ClockOk(p, s, 0) && "a" in s.members && "b" in s.members
    ensures IsWriter(s.members["a"].local.shared, 0) && IsWriter(s.members["b"].local.shared, 0)
    ensures s.members["a"].local.shared.generation == 1 && s.members["b"].local.shared.generation == 2
    ensures s.admitted == []
  {
    var nodes := {"a", "b"};
    var e1, s1 := Grants(p, nodes, [], Boot(nodes), LeaseRecord("a", 1, 0, 0));
    var e2, s2 := BecomesWriter(p, nodes, e1, s1, "a", 0);
    var wait := Advance(p.margin + 1);
    Extend(p, nodes, e2, s2, wait);
    var e3, s3 := Grants(p, nodes, e2 + [wait], Apply(p, s2, wait), LeaseRecord("b", 2, p.margin + 1, 0));
    events, s := BecomesWriter(p, nodes, e3, s3, "b", 1);
  }

  /** Single-writer safety, exactly: it holds in all runs of all clusters iff no clock can
      lag by more than the register's margin. */
  ghost predicate AlwaysSingle(p: Params) {
    forall nodes, events, s, a, b, clockA, clockB ::
      Reaches(p, nodes, events, s) && TwoWriters(p, s, a, b, clockA, clockB) ==> a == b
  }

  ghost predicate TwoWriters(p: Params, s: Cluster, a: NodeId, b: NodeId, clockA: nat, clockB: nat) {
    && a in s.members && b in s.members && ClockOk(p, s, clockA) && ClockOk(p, s, clockB)
    && IsWriter(s.members[a].local.shared, clockA) && IsWriter(s.members[b].local.shared, clockB)
  }

  lemma SingleWriterExactlyWhen(p: Params)
    ensures AlwaysSingle(p) <==> p.lag <= p.margin
  {
    if p.lag <= p.margin {
      forall nodes, events, s, a, b, clockA, clockB |
        Reaches(p, nodes, events, s) && TwoWriters(p, s, a, b, clockA, clockB)
        ensures a == b
      {
        SingleWriter(p, nodes, events, s, a, b, clockA, clockB);
      }
    } else {
      var events, s := LaggingClockTwoWriters(p);
      assert TwoWriters(p, s, "a", "b", 0, 0);
    }
  }

  // ----- Each condition of the fencing order is needed -----

  /** With stale reads a restarted node can be shown its own older, unexpired lease and
      admit a write under a generation below one it has already used. */
  lemma StaleReadReorders(p: Params) returns (events: seq<Event>, s: Cluster)
    requires !p.monotone
    ensures Reaches(p, {"a"}, events, s) && |s.admitted| == 2
    ensures s.admitted[1].generation < s.admitted[0].generation
  {
    var e1, s1 := TwoLeases(p, 1, 2);
    var e2, s2 := AdmitsUnder(p, {"a"}, e1, s1, "a", 1);
    var e3, s3 := Restarts(p, {"a"}, e2, s2, "a");
    events, s := AdmitsUnder(p, {"a"}, e3, s3, "a", 0);
  }

  /** A register that lowers a holder's generation takes the holder's writes with it. */
  lemma LoweredGenerationReorders(p: Params) returns (events: seq<Event>, s: Cluster)
    requires !p.ordered
    ensures Reaches(p, {"a"}, events, s) && |s.admitted| == 2
    ensures s.admitted[1].generation < s.admitted[0].generation
  {
    var e1, s1 := TwoLeases(p, 2, 1);
    var e2, s2 := AdmitsUnder(p, {"a"}, e1, s1, "a", 0);
    var e3, s3 := Restarts(p, {"a"}, e2, s2, "a");
    events, s := AdmitsUnder(p, {"a"}, e3, s3, "a", 1);
  }

  /** With two writers at once, the one with the older lease may write last. */
  lemma LaggingClockReorders(p: Params) returns (events: seq<Event>, s: Cluster)
    requires p.margin < p.lag
    ensures Reaches(p, {"a", "b"}, events, s) && |s.admitted| == 2
    ensures s.admitted[1].generation < s.admitted[0].generation
  {
    var e1, s1 := LaggingClockTwoWriters(p);
    var e2, s2 := WritesOnce(p, {"a", "b"}, e1, s1, "b");
    events, s := WritesOnce(p, {"a", "b"}, e2, s2, "a");
  }

  lemma TwoLeases(p: Params, first: nat, second: nat) returns (events: seq<Event>, s: Cluster)
    requires p.ordered ==> first <= second
    ensures Reaches(p, {"a"}, events, s) && s.now == 0 && s.admitted == [] && |s.log| == 2
    ensures s.log[0].rec == LeaseRecord("a", first, 0, 0) && s.log[1].rec == LeaseRecord("a", second, 0, 0)
    ensures "a" in s.members && s.members["a"] == NewMember("a", 0)
  {
    var e1, s1 := Grants(p, {"a"}, [], Boot({"a"}), LeaseRecord("a", first, 0, 0));
    events, s := Grants(p, {"a"}, e1, s1, LeaseRecord("a", second, 0, 0));
  }

  lemma Grants(p: Params, nodes: set<NodeId>, events: seq<Event>, s: Cluster, rec: LeaseRecord)
    returns (events': seq<Event>, s': Cluster)
    requires Reaches(p, nodes, events, s) && MayGrant(p, s, rec)
    ensures Reaches(p, nodes, events', s') && s' == s.(log := s.log + [Entry(rec, s.now)])
  {
    var grant := Grant(rec);
    Extend(p, nodes, events, s, grant);
    events', s' := events + [grant], Apply(p, s, grant);
  }

  lemma Restarts(p: Params, nodes: set<NodeId>, events: seq<Event>, s: Cluster, n: NodeId)
    returns (events': seq<Event>, s': Cluster)
    requires Reaches(p, nodes, events, s) && n in s.members
    ensures Reaches(p, nodes, events', s')
    ensures s' == s.(members := s.members[n := NewMember(n, s.members[n].seen)])
  {
    var restart := Restart(n);
    Extend(p, nodes, events, s, restart);
    events', s' := events + [restart], Apply(p, s, restart);
  }

  /** A new node becomes writer under an entry it is shown, and admits a write. */
  lemma AdmitsUnder(p: Params, nodes: set<NodeId>, events: seq<Event>, s: Cluster, n: NodeId, i: nat)
    returns (events': seq<Event>, s': Cluster)
    requires Reaches(p, nodes, events, s) && n in s.members && s.now <= p.lag && i < |s.log|
    requires s.members[n] == NewMember(n, s.members[n].seen) && (p.monotone ==> s.members[n].seen <= i + 1)
    requires s.log[i].rec.holder == n
    ensures Reaches(p, nodes, events', s')
    ensures s' == s.(members := s.members[n := WriterMember(s, n, i)],
                     admitted := s.admitted + [Admission(n, s.log[i].rec.generation, i + 1)])
  {
    var e1, s1 := BecomesWriter(p, nodes, events, s, n, i);
    events', s' := WritesOnce(p, nodes, e1, s1, n);
  }

  lemma WritesOnce(p: Params, nodes: set<NodeId>, events: seq<Event>, s: Cluster, n: NodeId)
    returns (events': seq<Event>, s': Cluster)
    requires Reaches(p, nodes, events, s) && n in s.members && s.now <= p.lag
    requires IsWriter(s.members[n].local.shared, 0)
    ensures Reaches(p, nodes, events', s')
    ensures s' == s.(admitted := s.admitted + [Admission(n, s.members[n].local.shared.generation, s.members[n].stored)])
  {
    var write := Write(n, 0);
    Extend(p, nodes, events, s, write);
    events', s' := events + [write], Apply(p, s, write);
  }

  ghost predicate GoesDown(s: Cluster, i: nat, j: nat) {
    i <= j < |s.admitted| && s.admitted[j].generation < s.admitted[i].generation
  }

  /** Generations never go down, in all runs of all clusters. */
  ghost predicate AlwaysFenced(p: Params) {
    forall nodes, events, s, i: nat, j: nat :: Reaches(p, nodes, events, s) ==> !GoesDown(s, i, j)
  }

  /** Fencing order, exactly: it holds iff no clock can lag by more than the register's
      margin, the register is ordered and reads are monotone. */
  lemma FencedExactlyWhen(p: Params)
    ensures AlwaysFenced(p) <==> p.lag <= p.margin && p.ordered && p.monotone
  {
    if p.lag <= p.margin && p.ordered && p.monotone {
      forall nodes, events, s, i: nat, j: nat | Reaches(p, nodes, events, s) ensures !GoesDown(s, i, j) {
        if i <= j < |s.admitted| {
          AdmissionsFenced(p, nodes, events, s, i, j);
        }
      }
    } else {
      var nodes, events, s := SomeRunGoesDown(p);
      assert Reaches(p, nodes, events, s) && GoesDown(s, 0, 1);
    }
  }

  lemma SomeRunGoesDown(p: Params) returns (nodes: set<NodeId>, events: seq<Event>, s: Cluster)
    requires !(p.lag <= p.margin && p.ordered && p.monotone)
    ensures Reaches(p, nodes, events, s) && GoesDown(s, 0, 1)
  {
    if !p.monotone {
      nodes := {"a"};
      events, s := StaleReadReorders(p);
    } else if !p.ordered {
      nodes := {"a"};
      events, s := LoweredGenerationReorders(p);
    } else {
      nodes := {"a", "b"};
      events, s := LaggingClockReorders(p);
    }
  }
}
