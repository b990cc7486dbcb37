/** What a sync session achieves, for every pair of databases and every interleaving. */
module SyncTheorems {
  import opened Basics
  import opened Hashing
  import opened Protocol
  import opened SyncSession
  import opened PageDiff
  import opened SyncInvariant
  import opened SyncPlan
  import opened SyncShadow
  import opened SyncRefused
  import R = ReplicaSide

  /** Page writes go through: equal page sizes, or a replica reporting page size 0 with
      nothing to receive. */
  predicate PageSizesAgree(c: Config) {
    c.origin.pageSize == c.replica.pageSize || (c.replica.pageSize == 0 && c.origin.pages == [])
  }

  /** Every planned message is within the transport's size limit. */
  ghost predicate Deliverable(c: Config) {
    Carried(SessionOf(c), PlanOf(c))
  }

  /** Nothing stands in the way of the planned conversation. */
  ghost predicate Compatible(c: Config) {
    Meets(c) && PageSizesAgree(c) && Deliverable(c)
  }

  // ----- The file -----

  lemma {:induction false} WrittenIsApply(c: Config, pages: seq<PageData>)
    ensures Written(SessionOf(c), pages) == R.Apply(c.replica.pages, c.replica.pageSize, pages)
  {
    if pages != [] {
      WrittenIsApply(c, pages[..|pages| - 1]);
    }
  }

  /** Only pages of the replica's page size are ever written. */
  lemma {:induction false} WrittenSized(c: Config, pages: seq<PageData>)
    requires Written(SessionOf(c), pages).Some?
    ensures forall i :: 0 <= i < |pages| ==> |pages[i].data| == c.replica.pageSize
  {
    if pages != [] {
      WrittenSized(c, pages[..|pages| - 1]);
    }
  }

  /** With page sizes that do not agree, nothing of the transfer can be written. */
  lemma NothingWritten(c: Config, writes: seq<PageData>, end: nat)
    requires c.origin.Valid() && c.origin.pageSize != c.replica.pageSize
    requires 1 <= end <= |Target(c)| + 1 && writes <= Diff(Target(c), c.replica.pages, 1, end)
    requires Written(SessionOf(c), writes).Some?
    ensures writes == []
  {
    var diff := Diff(Target(c), c.replica.pages, 1, end);
    DiffExact(Target(c), c.replica.pages, 1, end, diff);
    forall i | 0 <= i < |writes| ensures |writes[i].data| == c.origin.pageSize {
      assert writes[i] == diff[i];
    }
    WrittenSized(c, writes);
  }

  /** The file that writing part of the transfer leaves behind: done up to page `next`. */
  lemma PartialFile(c: Config, writes: seq<PageData>, end: nat) returns (next: nat)
    requires c.origin.Valid() && Written(SessionOf(c), writes).Some?
    requires 1 <= end <= |Target(c)| + 1 && writes <= Diff(Target(c), c.replica.pages, 1, end)
    ensures 1 <= next <= |Target(c)| + 1 && writes == Diff(Target(c), c.replica.pages, 1, next)
    ensures Written(SessionOf(c), writes) == Some(Overlay(Target(c), c.replica.pages, next - 1))
  {
    if c.origin.pageSize == c.replica.pageSize {
      next := PrefixWritten(Target(c), c.replica.pages, c.replica.pageSize, writes, end);
      WrittenIsApply(c, writes);
    } else {
      NothingWritten(c, writes, end);
      next := Untouched(c);
    }
  }

  lemma PrefixWritten(o: seq<Page>, r: seq<Page>, pageSize: nat, writes: seq<PageData>, end: nat) returns (next: nat)
    requires forall i :: 0 <= i < |o| ==> |o[i]| == pageSize
    requires 1 <= end <= |o| + 1 && writes <= Diff(o, r, 1, end)
    ensures 1 <= next <= |o| + 1 && writes == Diff(o, r, 1, next)
    ensures R.Apply(r, pageSize, writes) == Some(Overlay(o, r, next - 1))
  {
    next := DiffPrefix(o, r, end, |writes|);
    assert Diff(o, r, 1, end)[..|writes|] == writes;
    ApplyDiff(o, r, pageSize, next);
  }

  lemma WholeFile(c: Config, writes: seq<PageData>)
    requires c.origin.Valid() && PageSizesAgree(c) && |c.replica.pages| <= |Target(c)|
    requires writes == Diff(Target(c), c.replica.pages, 1, |Target(c)| + 1)
    ensures Written(SessionOf(c), writes) == Some(Target(c))
  {
    var o, r := Target(c), c.replica.pages;
    ApplyDiff(o, r, c.replica.pageSize, |o| + 1);
    WrittenIsApply(c, writes);
    assert Overlay(o, r, |o|) == o;
  }

  // ----- Runs of any session that meets -----

  /** The plan as a value of its own, in terms of the two databases. */
  lemma PlanFor(c: Config, e: Session) returns (p: Plan, end: nat)
    requires Meets(c) && Fits(e, PlanOf(c))
    ensures Fits(e, p) && p.N() == |Needed(c)| && (Carried(SessionOf(c), p) <==> Deliverable(c))
    ensures 1 <= end <= |Target(c)| + 1
    ensures Flat(p.batches, p.N()) == Diff(Target(c), c.replica.pages, 1, end)
    ensures Passed(p, p.N()) <==> |c.replica.pages| <= |c.origin.pages|
    ensures |c.replica.pages| <= |c.origin.pages| ==> end == |Target(c)| + 1
  {
    p := PlanOf(c);
    end := Transfer(c, p);
  }

  lemma LenientFits(c: Config)
    requires Meets(c)
    ensures Fits(Lenient(SessionOf(c)), PlanOf(c))
  {
    AllCarried(Lenient(SessionOf(c)), PlanOf(c));
    PlanFits(c, Lenient(SessionOf(c)));
  }

  lemma WritesFollowTransfer(c: Config, schedule: seq<Actor>) returns (end: nat)
    requires Meets(c)
    ensures var s := Run(SessionOf(c), schedule);
            && 1 <= end <= |Target(c)| + 1 && s.writes <= Diff(Target(c), c.replica.pages, 1, end)
            && Written(SessionOf(c), s.writes) == Some(s.file)
  {
    LenientFits(c);
    var p;
    p, end := PlanFor(c, Lenient(SessionOf(c)));
    WritesFollowPlan(SessionOf(c), p, schedule);
  }

  /** Crash-prefix safety, for all databases and transports.  At every point of every run
      the replica file is the origin's pages before `next` followed by what the replica had
      from there on, and the pages written are exactly the differing ones before `next`. */
  lemma CrashPrefix(c: Config, schedule: seq<Actor>) returns (next: nat)
    requires c.origin.Valid() && c.replica.Valid()
    requires CollisionFree(c.digest, c.origin.pages, c.replica.pages)
    ensures 1 <= next <= |Target(c)| + 1
    ensures var s := Run(SessionOf(c), schedule);
            && s.file == Overlay(Target(c), c.replica.pages, next - 1)
            && s.writes == Diff(Target(c), c.replica.pages, 1, next)
  {
    if |c.replica.pages| > PAGE_LIMIT {
      OverLimitReplicaStops(c, schedule);
      next := Untouched(c);
    } else if c.origin.pageSize != c.replica.pageSize && c.replica.pageSize != 0 {
      MismatchRefused(SessionOf(c), schedule);
      next := Untouched(c);
    } else {
      var end := WritesFollowTransfer(c, schedule);
      next := PartialFile(c, Run(SessionOf(c), schedule).writes, end);
    }
  }

  lemma Untouched(c: Config) returns (next: nat)
    ensures 1 <= next <= |Target(c)| + 1 && Overlay(Target(c), c.replica.pages, next - 1) == c.replica.pages
    ensures Diff(Target(c), c.replica.pages, 1, next) == []
  {
    next := 1;
  }

  /** What two Ok results mean, for all databases and transports: everything planned was
      carried, the page sizes agree, the replica was no longer than what the origin can
      number, and the file now holds exactly that. */
  lemma OkMeansTarget(c: Config, schedule: seq<Actor>)
    requires c.origin.Valid() && c.replica.Valid()
    requires CollisionFree(c.digest, c.origin.pages, c.replica.pages)
    requires Run(SessionOf(c), schedule).o.OOk? && Run(SessionOf(c), schedule).r.ROk?
    ensures Compatible(c) && |c.replica.pages| <= |Target(c)|
    ensures Run(SessionOf(c), schedule).file == Target(c)
  {
    if |c.replica.pages| > PAGE_LIMIT {
      OverLimitReplicaStops(c, schedule);
    } else if c.origin.pageSize != c.replica.pageSize && c.replica.pageSize != 0 {
      MismatchRefused(SessionOf(c), schedule);
    }
    OkTransfers(c, schedule);
    var writes := Run(SessionOf(c), schedule).writes;
    if !PageSizesAgree(c) {
      NothingWritten(c, writes, |Target(c)| + 1);
      FirstPageDiffers(c);
    }
    WholeFile(c, writes);
  }

  lemma OkTransfers(c: Config, schedule: seq<Actor>)
    requires Meets(c) && Run(SessionOf(c), schedule).o.OOk? && Run(SessionOf(c), schedule).r.ROk?
    ensures Deliverable(c) && |c.replica.pages| <= |Target(c)|
    ensures var s := Run(SessionOf(c), schedule);
            && s.writes == Diff(Target(c), c.replica.pages, 1, |Target(c)| + 1)
            && Written(SessionOf(c), s.writes) == Some(s.file)
  {
    LenientFits(c);
    var p, end := PlanFor(c, Lenient(SessionOf(c)));
    OkFollowsPlan(SessionOf(c), p, schedule);
  }

  lemma FirstPageDiffers(c: Config)
    requires c.origin.Valid() && c.replica.Valid() && c.origin.pages != []
    requires c.origin.pageSize != c.replica.pageSize
    ensures Diff(Target(c), c.replica.pages, 1, |Target(c)| + 1) != []
  {
    var o, r := Target(c), c.replica.pages;
    DiffExact(o, r, 1, |o| + 1, Diff(o, r, 1, |o| + 1));
    assert Differs(o, r, 1);
  }

  // ----- Runs that nothing stands in the way of -----

  /** The plan of such a session, in terms of the two databases. */
  lemma Planned(c: Config) returns (p: Plan)
    requires Compatible(c)
    ensures Fits(SessionOf(c), p) && p.N() == |Needed(c)|
    ensures Passed(p, p.N()) <==> |c.replica.pages| <= |c.origin.pages|
    ensures |c.replica.pages| <= |c.origin.pages| ==>
              Flat(p.batches, p.N()) == Diff(Target(c), c.replica.pages, 1, |Target(c)| + 1)
  {
    CompatibleFits(c);
    var end;
    p, end := PlanFor(c, SessionOf(c));
  }

  lemma CompatibleFits(c: Config)
    requires Compatible(c)
    ensures Fits(SessionOf(c), PlanOf(c))
  {
    BatchesTaken(c, Needed(c));
    PlanFits(c, SessionOf(c));
  }

  lemma BatchesTaken(c: Config, groups: seq<nat>)
    requires c.origin.Valid() && PageSizesAgree(c)
    ensures forall k :: 0 <= k < |groups| ==> Takes(SessionOf(c), Batches(c, groups)[k])
  {
    forall k | 0 <= k < |groups| ensures Takes(SessionOf(c), Batches(c, groups)[k]) {
      BatchShape(c, groups[k]);
    }
  }

  /** Convergence: with a replica no longer than the origin, a run stops exactly when both
      ends have returned Ok and the replica holds the origin's pages up to the page limit,
      having exchanged 5 + 3 n messages for n listed groups and written exactly the
      differing pages; never more than two messages are in flight. */
  lemma Converges(c: Config, schedule: seq<Actor>)
    requires Compatible(c) && |c.replica.pages| <= |c.origin.pages|
    ensures var e := SessionOf(c);
            var s := Run(e, schedule);
            && (Stopped(e, s) <==> Synced(Target(c), s))
            && (Synced(Target(c), s) ==> |s.oLog| + |s.rLog| == 5 + 3 * |Needed(c)|)
            && (Synced(Target(c), s) ==> s.writes == Diff(Target(c), c.replica.pages, 1, |Target(c)| + 1))
            && |s.oLog| - s.oRead + |s.rLog| - s.rRead <= 2
            && (s.o.OOk? && s.r.ROk? ==> Synced(Target(c), s))
  {
    var p := Planned(c);
    WholeFile(c, Flat(p.batches, p.N()));
    Outcome(SessionOf(c), p, schedule, Target(c));
  }

  lemma Outcome(e: Session, p: Plan, schedule: seq<Actor>, o: seq<Page>)
    requires Fits(e, p) && Passed(p, p.N()) && Written(e, Flat(p.batches, p.N())) == Some(o)
    ensures var s := Run(e, schedule);
            && (Stopped(e, s) <==> Synced(o, s))
            && (s.o.OOk? && s.r.ROk? ==> Synced(o, s))
            && (s.o.OOk? && s.r.ROk? ==> s.writes == Flat(p.batches, p.N()))
            && (s.o.OOk? && s.r.ROk? ==> |s.oLog| + |s.rLog| == 5 + 3 * p.N())
            && |s.oLog| - s.oRead + |s.rLog| - s.rRead <= 2
  {
    var s := Run(e, schedule);
    RunInv(e, p, schedule);
    AtMostTwoInFlight(e, p, s);
    EndsWell(e, p, s);
  }

  lemma EndsWell(e: Session, p: Plan, s: Joint)
    requires Fits(e, p) && Inv(e, p, s) && Passed(p, p.N())
    ensures Stopped(e, s) <==> s.o.OOk? && s.r.ROk?
  {
    NoDeadlock(e, p, s);
    if Stopped(e, s) {
      StoppedOutcome(e, p, s);
    }
  }

  /** A replica with more pages than the origin: every run ends with the origin panicked
      on a page it does not have and the replica cut off. */
  lemma LongerReplicaPanics(c: Config, schedule: seq<Actor>)
    requires Compatible(c) && |c.replica.pages| > |c.origin.pages|
    ensures var e := SessionOf(c);
            var s := Run(e, schedule);
            Stopped(e, s) <==> s.o.OPanicked? && s.r == RFailed(ConnectionClosed)
  {
    var p := Planned(c);
    EndsInPanic(SessionOf(c), p, schedule);
  }

  lemma EndsInPanic(e: Session, p: Plan, schedule: seq<Actor>)
    requires Fits(e, p) && !Passed(p, p.N())
    ensures var s := Run(e, schedule);
            Stopped(e, s) <==> s.o.OPanicked? && s.r == RFailed(ConnectionClosed)
  {
    var s := Run(e, schedule);
    RunInv(e, p, schedule);
    NoDeadlock(e, p, s);
    if Stopped(e, s) {
      StoppedOutcome(e, p, s);
    }
  }

  // ----- Messages of a whole run -----

  /** All pages carried by the first `n` messages of a log, in order. */
  function PagesIn(log: seq<Message>, n: nat): seq<PageData>
    requires n <= |log|
  {
    if n == 0 then []
    else if log[n - 1].SendPages? then PagesIn(log, n - 1) + log[n - 1].pages
    else PagesIn(log, n - 1)
  }

  /** All page numbers acknowledged in the first `n` messages of a log, in order. */
  function AcksIn(log: seq<Message>, n: nat): seq<nat>
    requires n <= |log|
  {
    if n == 0 then []
    else if log[n - 1].PagesAck? then AcksIn(log, n - 1) + log[n - 1].acked
    else AcksIn(log, n - 1)
  }

  predicate Sends(m: seq<Message>, batches: seq<seq<PageData>>, k: nat)
    requires k < |batches| && 2 + k < |m|
  {
    m[2 + k] == SendPages(batches[k])
  }

  lemma {:induction false} PagesInPrefix(m: seq<Message>, batches: seq<seq<PageData>>, k: nat)
    requires k <= |batches| && 2 + k <= |m| && m[0].HelloAck? && m[1].GroupsNeedFine?
    requires forall i :: 0 <= i < k ==> Sends(m, batches, i)
    ensures PagesIn(m, 2 + k) == Flat(batches, k)
  {
    if k == 0 {
      assert PagesIn(m, 1) == [];
    } else {
      PagesInPrefix(m, batches, k - 1);
      assert Sends(m, batches, k - 1);
    }
  }

  predicate Acknowledges(m: seq<Message>, batches: seq<seq<PageData>>, k: nat)
    requires k < |batches| && 2 * k + 4 <= |m|
  {
    m[2 + 2 * k].PageHashes? && m[3 + 2 * k] == PagesAck(R.PageNosOf(batches[k]))
  }

  lemma {:induction false} AcksInPrefix(m: seq<Message>, batches: seq<seq<PageData>>, k: nat)
    requires k <= |batches| && 2 + 2 * k <= |m| && m[0].Hello? && m[1].GroupHashes?
    requires forall i :: 0 <= i < k ==> Acknowledges(m, batches, i)
    ensures AcksIn(m, 2 + 2 * k) == R.PageNosOf(Flat(batches, k))
  {
    if k == 0 {
      assert AcksIn(m, 1) == [];
    } else {
      AcksInPrefix(m, batches, k - 1);
      assert Acknowledges(m, batches, k - 1);
      AcksOfGroup(m, k - 1);
      assert R.PageNosOf(Flat(batches, k)) == R.PageNosOf(Flat(batches, k - 1)) + R.PageNosOf(batches[k - 1]);
    }
  }

  lemma AcksOfGroup(m: seq<Message>, k: nat)
    requires 2 * k + 4 <= |m| && m[2 + 2 * k].PageHashes? && m[3 + 2 * k].PagesAck?
    ensures AcksIn(m, 4 + 2 * k) == AcksIn(m, 2 + 2 * k) + m[3 + 2 * k].acked
  {
    assert AcksIn(m, 3 + 2 * k) == AcksIn(m, 2 + 2 * k);
  }

  /** Minimal transfer: over a whole run the pages sent are exactly those missing from or
      differing in the initial replica, each once, in order, with the snapshot's bytes;
      and exactly these are acknowledged. */
  lemma MinimalTransfer(c: Config, schedule: seq<Actor>)
    requires c.origin.Valid() && c.replica.Valid()
    requires CollisionFree(c.digest, c.origin.pages, c.replica.pages)
    requires Run(SessionOf(c), schedule).o.OOk? && Run(SessionOf(c), schedule).r.ROk?
    ensures var s := Run(SessionOf(c), schedule);
            var diff := Diff(Target(c), c.replica.pages, 1, |Target(c)| + 1);
            && PagesIn(s.oLog, |s.oLog|) == diff
            && AcksIn(s.rLog, |s.rLog|) == R.PageNosOf(diff)
  {
    OkMeansTarget(c, schedule);
    var p := Planned(c);
    RunInv(SessionOf(c), p, schedule);
    FullLogs(SessionOf(c), p, Run(SessionOf(c), schedule));
  }

  lemma FullLogs(e: Session, p: Plan, s: Joint)
    requires Fits(e, p) && Inv(e, p, s) && s.o.OOk? && s.r.ROk?
    ensures PagesIn(s.oLog, |s.oLog|) == Flat(p.batches, p.N())
    ensures AcksIn(s.rLog, |s.rLog|) == R.PageNosOf(Flat(p.batches, p.N()))
  {
    assert s.oLog == p.oMsgs && s.rLog == p.rMsgs;
    forall k | 0 <= k < p.N() ensures Sends(p.oMsgs, p.batches, k) && Acknowledges(p.rMsgs, p.batches, k) {
      assert FineFits(e, p, k);
    }
    PagesInPrefix(p.oMsgs, p.batches, p.N());
    AcksInPrefix(p.rMsgs, p.batches, p.N());
  }

  // ----- Termination -----

  /** How often a schedule actually moved an end. */
  function Moves(e: Session, schedule: seq<Actor>): nat {
    if schedule == [] then 0
    else
      var init := schedule[..|schedule| - 1];
      Moves(e, init) + if Step(e, Run(e, init), schedule[|schedule| - 1]).Some? then 1 else 0
  }

  lemma {:induction false} MovesAreWork(e: Session, p: Plan, schedule: seq<Actor>)
    requires Fits(e, p)
    ensures Moves(e, schedule) == Work(Run(e, schedule))
  {
    if schedule != [] {
      var init, last := schedule[..|schedule| - 1], schedule[|schedule| - 1];
      var s := Run(e, init);
      MovesAreWork(e, p, init);
      RunInv(e, p, init);
      if Step(e, s, last).Some? {
        WorkGrows(e, p, s, last);
      }
    }
  }

  /** Every run is finite, and all complete runs are equally long: after 10 + 6 n + d
      effective moves, for n listed groups and d differing pages, the session has synced,
      and no fewer suffice. */
  lemma Terminates(c: Config, schedule: seq<Actor>)
    requires Compatible(c) && |c.replica.pages| <= |c.origin.pages|
    ensures var e := SessionOf(c);
            var total := 10 + 6 * |Needed(c)| + |Diff(Target(c), c.replica.pages, 1, |Target(c)| + 1)|;
            && Moves(e, schedule) <= total
            && (Moves(e, schedule) == total <==> Synced(Target(c), Run(e, schedule)))
  {
    var p := Planned(c);
    Converges(c, schedule);
    MovesBounded(SessionOf(c), p, schedule);
  }

  lemma MovesBounded(e: Session, p: Plan, schedule: seq<Actor>)
    requires Fits(e, p)
    ensures var s := Run(e, schedule);
            && Moves(e, schedule) <= 10 + 6 * p.N() + |Flat(p.batches, p.N())|
            && (Moves(e, schedule) == 10 + 6 * p.N() + |Flat(p.batches, p.N())| <==> s.o.OOk? && s.r.ROk?)
  {
    MovesAreWork(e, p, schedule);
    RunInv(e, p, schedule);
    WorkBound(e, p, Run(e, schedule));
  }

  // ----- Resuming -----

  lemma {:induction false} RemainingDiff(o: seq<Page>, r: seq<Page>, next: nat, hi: nat)
    requires 1 <= next <= hi <= |o| + 1
    ensures Diff(o, Overlay(o, r, next - 1), 1, hi) == Diff(o, r, next, hi)
    decreases hi
  {
    var file := Overlay(o, r, next - 1);
    if hi == next {
      DiffEmpty(o, file, 1, hi);
    } else {
      RemainingDiff(o, r, next, hi - 1);
      assert Differs(o, file, hi - 1) <==> Differs(o, r, hi - 1);
    }
  }

  /** After an abort at any point, the file left behind meets the conditions of convergence
      again, if the transport carries the messages of the new session; and what that session
      has to send is exactly what the first one had not written: no page goes twice. */
  lemma ResumeAfterAbort(c: Config, schedule: seq<Actor>, again: Config)
    requires Meets(c) && PageSizesAgree(c) && |c.replica.pages| <= |c.origin.pages|
    requires again == c.(replica := Database(c.replica.pageSize, Run(SessionOf(c), schedule).file))
    requires CollisionFree(c.digest, c.origin.pages, again.replica.pages)
    ensures Meets(again) && PageSizesAgree(again) && |again.replica.pages| <= |again.origin.pages|
    ensures Diff(Target(c), c.replica.pages, 1, |Target(c)| + 1) ==
            Run(SessionOf(c), schedule).writes + Diff(Target(again), again.replica.pages, 1, |Target(again)| + 1)
  {
    var next := CrashPrefix(c, schedule);
    ResumeFrom(c, next, again);
  }

  lemma ResumeFrom(c: Config, next: nat, again: Config)
    requires Meets(c) && PageSizesAgree(c) && |c.replica.pages| <= |c.origin.pages| && 1 <= next <= |Target(c)| + 1
    requires again == c.(replica := Database(c.replica.pageSize, Overlay(Target(c), c.replica.pages, next - 1)))
    requires CollisionFree(c.digest, c.origin.pages, again.replica.pages)
    ensures Meets(again) && PageSizesAgree(again) && |again.replica.pages| <= |again.origin.pages|
    ensures Diff(Target(c), c.replica.pages, 1, |Target(c)| + 1) ==
            Diff(Target(c), c.replica.pages, 1, next) +
            Diff(Target(again), again.replica.pages, 1, |Target(again)| + 1)
  {
    OverlayValid(c, next);
    SplitTransfer(Target(c), c.replica.pages, next);
  }

  lemma OverlayValid(c: Config, next: nat)
    requires c.origin.Valid() && c.replica.Valid() && PageSizesAgree(c) && 1 <= next <= |Target(c)| + 1
    requires |c.replica.pages| <= |Target(c)|
    ensures var file := Overlay(Target(c), c.replica.pages, next - 1);
            Database(c.replica.pageSize, file).Valid() && |file| <= |Target(c)|
  {
  }

  lemma SplitTransfer(o: seq<Page>, r: seq<Page>, next: nat)
    requires 1 <= next <= |o| + 1
    ensures Diff(o, r, 1, |o| + 1) == Diff(o, r, 1, next) + Diff(o, Overlay(o, r, next - 1), 1, |o| + 1)
  {
    DiffSplit(o, r, 1, next, |o| + 1);
    RemainingDiff(o, r, next, |o| + 1);
  }
}
