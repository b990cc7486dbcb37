/** Exactly when a session finishes, when it syncs, and what two Ok results are worth. */
module SyncExact {
  import opened Basics
  import opened Hashing
  import opened Protocol
  import opened SyncSession
  import opened PageDiff
  import opened SyncInvariant
  import opened SyncPlan
  import opened SyncRefused
  import opened SyncTheorems
  import O = OriginSide
  import R = ReplicaSide

  // ----- Writes never shrink the file or change its page size -----

  ghost predicate AllSized(file: seq<Page>, size: nat) {
    forall i :: 0 <= i < |file| ==> |file[i]| == size
  }

  lemma WriteKeepsShape(file: seq<Page>, size: nat, page: PageData)
    requires AllSized(file, size) && WritePage(file, size, page.pageNo, page.data).Some?
    ensures var after := WritePage(file, size, page.pageNo, page.data).value;
            AllSized(after, size) && |file| <= |after| <= Max(|file|, page.pageNo)
  {
  }

  lemma {:induction false} FileShape(c: Config, schedule: seq<Actor>)
    requires c.replica.Valid()
    ensures var s := Run(SessionOf(c), schedule);
            AllSized(s.file, c.replica.pageSize) && |c.replica.pages| <= |s.file|
  {
    if schedule != [] {
      var e, init, last := SessionOf(c), schedule[..|schedule| - 1], schedule[|schedule| - 1];
      var s := Run(e, init);
      FileShape(c, init);
      if last.TheReplica? && s.r.RWriting? && s.r.written < |s.r.pages| {
        var page := s.r.pages[s.r.written];
        if WritePage(s.file, c.replica.pageSize, page.pageNo, page.data).Some? {
          WriteKeepsShape(s.file, c.replica.pageSize, page);
        }
      }
    }
  }

  // ----- Beyond the page limit -----

  lemma WrapStaysAligned(g: nat)
    ensures Wrap32((g + 1) * GROUP_SIZE) <= PAGE_LIMIT
  {
  }

  ghost predicate Below(pages: seq<PageData>, limit: nat) {
    forall i :: 0 <= i < |pages| ==> pages[i].pageNo <= limit
  }

  /** The origin never sends a page numbered above the limit. */
  lemma FinePagesBelow(d: Digest, alg: Algorithm, pages: seq<Page>, g: nat, nos: seq<nat>, hs: seq<Hash>)
    ensures var reply := FineReplyTo(d, alg, pages, g, nos, hs);
            reply.Reply? ==> Below(reply.pages, PAGE_LIMIT)
  {
    var reply := FineReplyTo(d, alg, pages, g, nos, hs);
    if reply.Reply? {
      WrapStaysAligned(g);
      ChangedBelow(d, alg, pages, nos, hs, |nos|);
      var next, last := O.NextMissing(nos, FirstPage(g)), LastPage(g, |pages|);
      var changed, missing := O.ChangedIn(d, alg, pages, nos, hs, |nos|), O.PagesFrom(pages, next, last);
      assert reply.pages == changed + missing;
      assert Below(changed, PAGE_LIMIT) && Below(missing, PAGE_LIMIT);
    }
  }

  lemma {:induction false} ChangedBelow(d: Digest, alg: Algorithm, pages: seq<Page>,
                                        nos: seq<nat>, hs: seq<Hash>, n: nat)
    requires n <= |nos| == |hs| && O.InSnapshot(pages, nos, n)
    requires forall i :: 0 <= i < n ==> nos[i] <= PAGE_LIMIT
    ensures Below(O.ChangedIn(d, alg, pages, nos, hs, n), PAGE_LIMIT)
  {
    if n > 0 {
      ChangedBelow(d, alg, pages, nos, hs, n - 1);
    }
  }

  /** The page numbers under way stay below the limit. */
  ghost predicate Capped(s: Joint, limit: nat) {
    && (s.o.OSendPages? ==> Below(s.o.pages, limit))
    && (s.r.RWriting? ==> Below(s.r.pages, limit))
    && (forall i :: 0 <= i < |s.oLog| ==> s.oLog[i].SendPages? ==> Below(s.oLog[i].pages, limit))
    && |s.file| <= limit
  }

  ghost predicate RepliesBelow(e: Session, limit: nat) {
    forall alg, g, nos, hs :: e.finePages(alg, g, nos, hs).Reply? ==> Below(e.finePages(alg, g, nos, hs).pages, limit)
  }

  ghost predicate WritesBelow(e: Session, limit: nat) {
    forall file: seq<Page>, page: PageData ::
      |file| <= limit && page.pageNo <= limit && e.write(file, page).Some? ==> |e.write(file, page).value| <= limit
  }

  lemma {:induction false} CappedRun(e: Session, limit: nat, schedule: seq<Actor>)
    requires |e.replicaPages| <= limit
    requires RepliesBelow(e, limit)
    requires WritesBelow(e, limit)
    ensures Capped(Run(e, schedule), limit)
  {
    if schedule != [] {
      CappedRun(e, limit, schedule[..|schedule| - 1]);
      var s := Run(e, schedule[..|schedule| - 1]);
      if schedule[|schedule| - 1].TheOrigin? {
        if OriginStep(e, s).Some? {
          CappedOrigin(e, limit, s);
        }
      } else if ReplicaStep(e, s).Some? {
        CappedReplica(e, limit, s);
      }
    }
  }

  lemma CappedOrigin(e: Session, limit: nat, s: Joint)
    requires Capped(s, limit) && OriginStep(e, s).Some?
    requires RepliesBelow(e, limit)
    ensures Capped(OriginStep(e, s).value, limit)
  {
  }

  lemma CappedReplica(e: Session, limit: nat, s: Joint)
    requires Capped(s, limit) && ReplicaStep(e, s).Some?
    requires WritesBelow(e, limit)
    ensures Capped(ReplicaStep(e, s).value, limit)
  {
  }

  /** An origin beyond the limit is never copied in full, whatever the digest does. */
  lemma OverLimitNeverSyncs(c: Config, schedule: seq<Actor>)
    requires c.origin.Valid() && c.replica.Valid() && |c.origin.pages| > PAGE_LIMIT
    ensures !Synced(c.origin.pages, Run(SessionOf(c), schedule))
  {
    var e := SessionOf(c);
    if |c.replica.pages| > PAGE_LIMIT {
      OverLimitReplicaStops(c, schedule);
    } else {
      forall alg, g, nos, hs | e.finePages(alg, g, nos, hs).Reply?
        ensures Below(e.finePages(alg, g, nos, hs).pages, PAGE_LIMIT)
      {
        FinePagesBelow(c.digest, alg, c.origin.pages, g, nos, hs);
      }
      CappedRun(e, PAGE_LIMIT, schedule);
    }
  }

  /** What a caller can check about the pages before starting: page sizes agree (or the
      replica reports 0 and there is nothing to send), the replica is no longer than the
      origin, and the origin is within the page limit. */
  predicate PagesAllow(c: Config) {
    PageSizesAgree(c) && |c.replica.pages| <= |c.origin.pages| <= PAGE_LIMIT
  }

  /** Outside that condition no run syncs, whatever the digest does. */
  lemma NeverSyncs(c: Config, schedule: seq<Actor>)
    requires c.origin.Valid() && c.replica.Valid() && !PagesAllow(c)
    ensures !Synced(c.origin.pages, Run(SessionOf(c), schedule))
  {
    var s := Run(SessionOf(c), schedule);
    FileShape(c, schedule);
    assert |s.file| > 0 ==> |s.file[0]| == c.replica.pageSize;
    assert |c.origin.pages| > 0 ==> |c.origin.pages[0]| == c.origin.pageSize;
    if |c.origin.pages| > PAGE_LIMIT {
      OverLimitNeverSyncs(c, schedule);
    } else if |c.replica.pages| <= |c.origin.pages| && c.replica.pageSize != 0 {
      MismatchRefused(SessionOf(c), schedule);
    }
  }

  // ----- When both ends return Ok -----

  ghost predicate StoppedAfter(c: Config, schedule: seq<Actor>) {
    Stopped(SessionOf(c), Run(SessionOf(c), schedule))
  }

  ghost predicate OkAfter(c: Config, schedule: seq<Actor>) {
    Run(SessionOf(c), schedule).o.OOk? && Run(SessionOf(c), schedule).r.ROk?
  }

  ghost predicate SyncedAfter(c: Config, schedule: seq<Actor>) {
    Synced(c.origin.pages, Run(SessionOf(c), schedule))
  }

  /** Page sizes agree, the replica is within the limit and no longer than the origin, and
      every planned message is within the transport's size limit. */
  ghost predicate CanFinish(c: Config) {
    PageSizesAgree(c) && |c.replica.pages| <= Min(|c.origin.pages|, PAGE_LIMIT) && Deliverable(c)
  }

  /** From any point of a run, some continuation ends with both sides Ok. */
  lemma CanComplete(c: Config, schedule: seq<Actor>) returns (more: seq<Actor>)
    requires Compatible(c) && |c.replica.pages| <= |c.origin.pages|
    ensures schedule <= more && OkAfter(c, more)
  {
    var p := Planned(c);
    more := Completes(SessionOf(c), p, schedule);
    Converges(c, more);
  }

  /** Exactly when a session finishes: some run ends with both sides Ok iff `CanFinish`
      holds; then every run that can no longer move has; and two Ok results always mean a
      file with the origin's pages up to the page limit. */
  lemma FinishesExactlyWhen(c: Config)
    requires c.origin.Valid() && c.replica.Valid()
    requires CollisionFree(c.digest, c.origin.pages, c.replica.pages)
    ensures CanFinish(c) <==> exists schedule :: OkAfter(c, schedule)
    ensures CanFinish(c) ==> forall schedule :: StoppedAfter(c, schedule) <==> OkAfter(c, schedule)
    ensures forall schedule :: OkAfter(c, schedule) ==> Run(SessionOf(c), schedule).file == Target(c)
  {
    forall schedule | OkAfter(c, schedule)
      ensures CanFinish(c) && Run(SessionOf(c), schedule).file == Target(c)
    {
      OkMeansTarget(c, schedule);
    }
    if CanFinish(c) {
      var complete := CanComplete(c, []);
      assert OkAfter(c, complete);
      forall schedule ensures StoppedAfter(c, schedule) <==> OkAfter(c, schedule) {
        Converges(c, schedule);
      }
    }
  }

  // ----- When the replica holds the origin -----

  /** The exact condition for syncing.  If it holds, every run can be completed, and a run
      that can no longer move has synced; if it fails, no run at all syncs. */
  lemma SyncsExactlyWhen(c: Config)
    requires c.origin.Valid() && c.replica.Valid()
    requires CollisionFree(c.digest, c.origin.pages, c.replica.pages)
    ensures PagesAllow(c) && Deliverable(c) <==> exists schedule :: SyncedAfter(c, schedule)
    ensures PagesAllow(c) && Deliverable(c) ==>
              forall schedule :: StoppedAfter(c, schedule) <==> SyncedAfter(c, schedule)
  {
    FinishesExactlyWhen(c);
    forall schedule | SyncedAfter(c, schedule) ensures PagesAllow(c) && Deliverable(c) {
      assert OkAfter(c, schedule);
      assert Run(SessionOf(c), schedule).file == Target(c);
    }
    if PagesAllow(c) && Deliverable(c) {
      assert CanFinish(c) && Target(c) == c.origin.pages;
      var schedule :| OkAfter(c, schedule);
      assert SyncedAfter(c, schedule);
      assert forall schedule :: SyncedAfter(c, schedule) ==> OkAfter(c, schedule);
    }
  }

  /** After an abort at any point of a session that could sync, a fresh session on the file
      left behind syncs, in every run that stops, iff the transport carries its messages. */
  lemma ResumeSyncsExactlyWhen(c: Config, schedule: seq<Actor>, again: Config)
    requires Meets(c) && PagesAllow(c)
    requires again == c.(replica := Database(c.replica.pageSize, Run(SessionOf(c), schedule).file))
    requires CollisionFree(c.digest, c.origin.pages, again.replica.pages)
    ensures Deliverable(again) <==> exists later :: SyncedAfter(again, later)
    ensures Deliverable(again) ==> forall later :: StoppedAfter(again, later) <==> SyncedAfter(again, later)
  {
    ResumeAfterAbort(c, schedule, again);
    SyncsExactlyWhen(again);
  }

  /** Where syncing is possible no page index of a group leaves `u32`, on either side. */
  lemma NoIndexOverflow(c: Config, g: nat)
    requires Meets(c) && PagesAllow(c)
    requires g in Needed(c) || g < R.NumGroups(|c.replica.pages|)
    ensures (g + 1) * GROUP_SIZE < U32_LIMIT
    ensures FirstPage(g) == g * GROUP_SIZE + 1
    ensures LastPage(g, |c.origin.pages|) == Min((g + 1) * GROUP_SIZE, |c.origin.pages|)
    ensures LastPage(g, |c.replica.pages|) == Min((g + 1) * GROUP_SIZE, |c.replica.pages|)
  {
    assert g * GROUP_SIZE >= PAGE_LIMIT ==> |Slice(c.origin.pages, g)| == 0 && |Slice(c.replica.pages, g)| == 0;
    NeededExact(c);
    assert ListedRight(c.origin.pages, c.replica.pages, Needed(c), g);
  }

  // ----- When two Ok results can be trusted -----

  /** Both sides will return Ok, on a file that lacks the origin's last pages. */
  ghost predicate Truncates(c: Config) {
    c.origin.pageSize == c.replica.pageSize && |c.replica.pages| <= PAGE_LIMIT < |c.origin.pages| && Deliverable(c)
  }

  /** Two Ok results always mean a synced replica, in all runs, iff the session is not one
      that truncates; and one that does stops with exactly the pages below the limit. */
  lemma OkMeansSyncedExactlyWhen(c: Config)
    requires c.origin.Valid() && c.replica.Valid()
    requires CollisionFree(c.digest, c.origin.pages, c.replica.pages)
    ensures (forall schedule :: OkAfter(c, schedule) ==> SyncedAfter(c, schedule)) <==> !Truncates(c)
    ensures Truncates(c) ==>
              forall schedule :: StoppedAfter(c, schedule) ==> TruncatedAfter(c, schedule)
  {
    FinishesExactlyWhen(c);
    if Truncates(c) {
      assert CanFinish(c);
      var schedule :| OkAfter(c, schedule);
      assert Run(SessionOf(c), schedule).file == Target(c);
      assert !SyncedAfter(c, schedule);
    } else {
      forall schedule | OkAfter(c, schedule) ensures SyncedAfter(c, schedule) {
        assert CanFinish(c) && Run(SessionOf(c), schedule).file == Target(c);
      }
    }
  }

  /** Without a size limit, in terms of the pages alone. */
  lemma UnlimitedOkMeansSyncedExactlyWhen(c: Config)
    requires c.origin.Valid() && c.replica.Valid() && forall msg :: c.fits(msg)
    requires CollisionFree(c.digest, c.origin.pages, c.replica.pages)
    ensures (forall schedule :: OkAfter(c, schedule) ==> SyncedAfter(c, schedule)) <==>
            !(c.origin.pageSize == c.replica.pageSize && |c.replica.pages| <= PAGE_LIMIT < |c.origin.pages|)
  {
    AllCarried(SessionOf(c), PlanOf(c));
    OkMeansSyncedExactlyWhen(c);
  }

  ghost predicate TruncatedAfter(c: Config, schedule: seq<Actor>)
    requires |c.origin.pages| > PAGE_LIMIT
  {
    OkAfter(c, schedule) && Run(SessionOf(c), schedule).file == c.origin.pages[..PAGE_LIMIT] != c.origin.pages
  }

  /** A replica that lacks just the pages beyond the limit: every run that stops does so
      with both sides Ok and nothing copied. */
  lemma LastPagesLost(c: Config)
    requires c.origin.Valid() && c.replica.Valid() && Deliverable(c)
    requires CollisionFree(c.digest, c.origin.pages, c.replica.pages)
    requires c.origin.pageSize == c.replica.pageSize
    requires |c.origin.pages| > PAGE_LIMIT && c.replica.pages == c.origin.pages[..PAGE_LIMIT]
    ensures exists schedule :: OkAfter(c, schedule)
    ensures forall schedule :: StoppedAfter(c, schedule) ==>
              OkAfter(c, schedule) && Run(SessionOf(c), schedule).file == c.replica.pages != c.origin.pages
  {
    FinishesExactlyWhen(c);
    assert CanFinish(c) && Target(c) == c.replica.pages;
  }

  /** There is such a pair: over a transport without a size limit, an origin with one page
      too many. */
  lemma TruncatedInput() returns (c: Config)
    ensures c.origin.Valid() && c.replica.Valid() && CollisionFree(c.digest, c.origin.pages, c.replica.pages)
    ensures |c.origin.pages| == PAGE_LIMIT + 1 && c.replica.pages == c.origin.pages[..PAGE_LIMIT]
    ensures Truncates(c)
  {
    var o := seq(PAGE_LIMIT + 1, _ => [0]);
    c := Config(EmptyOrNot, Database(1, o), Database(1, o[..PAGE_LIMIT]), _ => true);
    SameUpToLimit(o, o[..PAGE_LIMIT]);
    AllCarried(SessionOf(c), PlanOf(c));
  }

  /** A digest that only tells the empty input apart. */
  function EmptyOrNot(alg: Algorithm, bytes: seq<Byte>): (h: Hash)
    ensures h[0] == if bytes == [] then 0 else 1
  {
    seq(32, _ => if bytes == [] then 0 else 1)
  }

  lemma SameUpToLimit(o: seq<Page>, r: seq<Page>)
    requires |o| > PAGE_LIMIT && r == o[..PAGE_LIMIT]
    ensures CollisionFree(EmptyOrNot, o, r)
  {
    var d := EmptyOrNot;
    forall g: nat ensures GroupSeparated(d, o, r, g) {
      if (g + 1) * GROUP_SIZE <= PAGE_LIMIT {
        SliceInReach(o, g);
        assert Reach(o) == r;
      } else {
        assert Slice(r, g) == [];
        assert GroupBytes(d, r, g) == [];
      }
    }
    assert forall i: nat :: PageSeparated(d, o, r, i);
  }
}
