/** The size limit of the framed transports (src/protocol/messages.rs, src/transport/mod.rs)
    and what it means for a session.  Payloads are sized as bincode's standard
    configuration encodes them: variable-length integers, hashes as 32 plain bytes. */
module WireSize {
  import opened Basics
  import opened Hashing
  import opened Protocol
  import opened SyncSession
  import opened PageDiff
  import opened SyncInvariant
  import opened SyncPlan
  import opened SyncTheorems
  import opened SyncExact
  import F = Frames
  import O = OriginSide
  import R = ReplicaSide

  /** The largest page size SQLite knows. */
  const MAX_PAGE_SIZE: nat := 65536

  /** The number of group hashes that no longer fits into one message. */
  const GROUP_CAP: nat := 0x80_0000

  function VarintSize(n: nat): (size: nat)
    ensures 1 <= size <= 9
  {
    if n < 251 then 1 else if n < 0x1_0000 then 3 else if n < U32_LIMIT then 5 else 9
  }

  function Varints(ns: seq<nat>): nat {
    if ns == [] then 0 else Varints(ns[..|ns| - 1]) + VarintSize(ns[|ns| - 1])
  }

  function PageBytes(pages: seq<PageData>): nat {
    if pages == [] then 0
    else
      var last := pages[|pages| - 1];
      PageBytes(pages[..|pages| - 1]) + VarintSize(last.pageNo) + VarintSize(|last.data|) + |last.data|
  }

  /** Payload bytes of a message; the text of an error counts as one. */
  function PayloadSize(msg: Message): nat {
    match msg
    case Hello(version, pageSize, count) => 1 + VarintSize(version) + VarintSize(pageSize) + VarintSize(count)
    case HelloAck(version, pageSize, count) => 1 + VarintSize(version) + VarintSize(pageSize) + VarintSize(count)
    case GroupHashes(first, hs) => 1 + VarintSize(first) + VarintSize(|hs|) + 32 * |hs|
    case GroupsNeedFine(groups) => 1 + VarintSize(|groups|) + Varints(groups)
    case PageHashes(nos, hs) => 1 + VarintSize(|nos|) + Varints(nos) + VarintSize(|hs|) + 32 * |hs|
    case SendPages(pages) => 1 + VarintSize(|pages|) + PageBytes(pages)
    case PagesAck(acked) => 1 + VarintSize(|acked|) + Varints(acked)
    case Done => 1
    case Error(_) => 1
  }

  /** The session runs over a framed transport. */
  ghost predicate Framed(c: Config) {
    forall msg :: c.fits(msg) <==> PayloadSize(msg) <= F.MAX_MESSAGE_SIZE
  }

  /** That size test is what taking a frame off the buffer amounts to. */
  lemma FrameDelivers(codec: F.Codec<Message>, c: Config, msg: Message, tail: seq<Byte>)
    requires Framed(c) && F.Faithful(codec, msg) && |codec.encode(msg)| == PayloadSize(msg) < U32_LIMIT
    ensures var buf := F.Frame(codec, msg) + tail;
            F.TryTake(codec, buf) == if c.fits(msg) then (F.Taken(msg), tail) else (F.Broken, buf)
  {
    F.CompleteFrame(codec, msg, tail);
  }

  // ----- Sizes -----

  lemma {:induction false} VarintsAtMost(ns: seq<nat>)
    ensures Varints(ns) <= 9 * |ns|
    ensures (forall i :: 0 <= i < |ns| ==> ns[i] < U32_LIMIT) ==> Varints(ns) <= 5 * |ns|
  {
    if ns != [] {
      VarintsAtMost(ns[..|ns| - 1]);
    }
  }

  lemma {:induction false} VarintsAtLeast(ns: seq<nat>)
    requires forall i :: 0 <= i < |ns| ==> ns[i] >= 0x1_0000
    ensures Varints(ns) >= 5 * |ns|
  {
    if ns != [] {
      VarintsAtLeast(ns[..|ns| - 1]);
    }
  }

  lemma {:induction false} PageBytesBound(pages: seq<PageData>)
    requires forall i :: 0 <= i < |pages| ==> |pages[i].data| <= MAX_PAGE_SIZE
    ensures PageBytes(pages) <= (18 + MAX_PAGE_SIZE) * |pages|
  {
    if pages != [] {
      PageBytesBound(pages[..|pages| - 1]);
    }
  }

  lemma {:induction false} DiffLength(o: seq<Page>, r: seq<Page>, lo: nat, hi: nat)
    requires 1 <= lo <= hi <= |o| + 1
    ensures |Diff(o, r, lo, hi)| <= hi - lo
    decreases hi
  {
    if lo < hi {
      DiffLength(o, r, lo, hi - 1);
    }
  }

  lemma BatchFits(c: Config, g: nat)
    requires c.origin.Valid() && c.origin.pageSize <= MAX_PAGE_SIZE
    ensures PayloadSize(SendPages(Batch(c, g))) <= F.MAX_MESSAGE_SIZE
    ensures PayloadSize(PagesAck(R.PageNosOf(Batch(c, g)))) <= F.MAX_MESSAGE_SIZE
  {
    var b := Batch(c, g);
    BatchShape(c, g);
    DiffLength(Target(c), c.replica.pages, GroupStart(Target(c), g), GroupEnd(Target(c), g));
    assert |b| <= GROUP_SIZE;
    PageBytesBound(b);
    VarintsAtMost(R.PageNosOf(b));
  }

  lemma ListingFits(hs: seq<Hash>, g: nat)
    requires |hs| <= PAGE_LIMIT && g * GROUP_SIZE < U32_LIMIT
    ensures PayloadSize(PageHashes(R.GroupPageNos(|hs|, g), R.GroupPageHashes(hs, g))) <= F.MAX_MESSAGE_SIZE
  {
    var nos := R.GroupPageNos(|hs|, g);
    assert |nos| <= GROUP_SIZE;
    VarintsAtMost(nos);
  }

  // ----- Which sessions fit -----

  lemma IncreasingUnique(a: seq<nat>, b: seq<nat>)
    requires forall i, j :: 0 <= i < j < |a| ==> a[i] < a[j]
    requires forall i, j :: 0 <= i < j < |b| ==> b[i] < b[j]
    requires forall x: nat :: x in a <==> x in b
    ensures a == b
  {
    DistinctCounts(a);
    DistinctCounts(b);
    forall x: nat ensures multiset(a)[x] == multiset(b)[x] {
      assert x in a <==> x in b;
    }
    assert multiset(a) == multiset(b);
    SortedUnique(a, b);
  }

  /** The groups whose pages differ, said without hashes. */
  function DifferingGroups(o: seq<Page>, r: seq<Page>): seq<nat> {
    O.Select((g: nat) => Slice(o, g) != Slice(r, g) || (g == 0 && o == []), 0,
             Max(GroupCount(|o|), R.NumGroups(|r|)))
  }

  lemma DifferingExact(o: seq<Page>, r: seq<Page>)
    ensures Exact(o, r, DifferingGroups(o, r))
  {
    var n := Max(GroupCount(|o|), R.NumGroups(|r|));
    O.SelectExact((g: nat) => Slice(o, g) != Slice(r, g) || (g == 0 && o == []), n);
    forall g: nat ensures ListedRight(o, r, DifferingGroups(o, r), g) {
      if g >= n {
        assert |Slice(o, g)| == 0 && |Slice(r, g)| == 0;
      }
    }
  }

  lemma ExactUnique(o: seq<Page>, r: seq<Page>, a: seq<nat>, b: seq<nat>)
    requires Exact(o, r, a) && Exact(o, r, b)
    ensures a == b
  {
    forall g: nat ensures g in a <==> g in b {
      assert ListedRight(o, r, a, g) && ListedRight(o, r, b, g);
    }
    IncreasingUnique(a, b);
  }

  lemma NeededIsDiffering(c: Config)
    requires Meets(c)
    ensures Needed(c) == DifferingGroups(c.origin.pages, c.replica.pages)
  {
    var o, r := c.origin.pages, c.replica.pages;
    NeededExact(c);
    DifferingExact(o, r);
    ExactUnique(o, r, Needed(c), DifferingGroups(o, r));
  }

  /** The replica's list of group hashes fits below a fixed number of groups. */
  lemma GroupHashesFit(hs: seq<Hash>)
    ensures PayloadSize(GroupHashes(0, hs)) <= F.MAX_MESSAGE_SIZE <==> |hs| < GROUP_CAP
  {
  }

  lemma OriginMessageFits(c: Config, i: nat)
    requires Framed(c) && c.origin.Valid() && c.origin.pageSize <= MAX_PAGE_SIZE
    requires PayloadSize(GroupsNeedFine(Needed(c))) <= F.MAX_MESSAGE_SIZE && i < 3 + |Needed(c)|
    ensures Delivered(SessionOf(c), OriginMessages(c, Needed(c), Batches(c, Needed(c)))[i])
  {
    var needFine := Needed(c);
    if 2 <= i < 2 + |needFine| {
      BatchFits(c, needFine[i - 2]);
    }
    OriginMessageAt(c, needFine, i);
  }

  lemma OriginMessageAt(c: Config, needFine: seq<nat>, i: nat)
    requires i < 3 + |needFine|
    ensures OriginMessages(c, needFine, Batches(c, needFine))[i] ==
            if i == 0 then HelloAck(PROTOCOL_VERSION, c.origin.pageSize, |c.origin.pages|)
            else if i == 1 then GroupsNeedFine(needFine)
            else if i < 2 + |needFine| then SendPages(Batch(c, needFine[i - 2]))
            else Done
  {
    var m := OriginMessages(c, needFine, Batches(c, needFine));
    assert 2 <= i < 2 + |needFine| ==> m[2 + (i - 2)] == SendPages(Batch(c, needFine[i - 2]));
  }

  lemma FineMessageFits(c: Config, hs: seq<Hash>, groupHashes: seq<Hash>, k: nat)
    requires Framed(c) && c.origin.Valid() && c.origin.pageSize <= MAX_PAGE_SIZE
    requires k < |Needed(c)| && |hs| <= PAGE_LIMIT && Needed(c)[k] * GROUP_SIZE < U32_LIMIT
    ensures var m := ReplicaMessages(c, hs, groupHashes, Needed(c), Batches(c, Needed(c)));
            Delivered(SessionOf(c), m[2 + 2 * k]) && Delivered(SessionOf(c), m[3 + 2 * k])
  {
    MessagesFit(c, hs, groupHashes, Needed(c), Batches(c, Needed(c)), k);
    ListingFits(hs, Needed(c)[k]);
    BatchFits(c, Needed(c)[k]);
  }

  predicate PairDelivered(e: Session, m: seq<Message>, k: nat)
    requires 2 * k + 4 <= |m|
  {
    Delivered(e, m[2 + 2 * k]) && Delivered(e, m[3 + 2 * k])
  }

  lemma PairsCover(e: Session, m: seq<Message>, n: nat, i: nat)
    requires |m| == 2 + 2 * n && Delivered(e, m[0]) && Delivered(e, m[1]) && i < |m|
    requires forall k :: 0 <= k < n ==> PairDelivered(e, m, k)
    ensures Delivered(e, m[i])
  {
    if 2 <= i {
      assert PairDelivered(e, m, (i - 2) / 2);
    }
  }

  lemma ReplicaMessagesFit(c: Config, hs: seq<Hash>, groupHashes: seq<Hash>, m: seq<Message>, i: nat)
    requires Framed(c) && c.origin.Valid() && c.origin.pageSize <= MAX_PAGE_SIZE
    requires |groupHashes| < GROUP_CAP && |hs| <= PAGE_LIMIT
    requires forall k :: 0 <= k < |Needed(c)| ==> Needed(c)[k] * GROUP_SIZE < U32_LIMIT
    requires m == ReplicaMessages(c, hs, groupHashes, Needed(c), Batches(c, Needed(c))) && i < |m|
    ensures Delivered(SessionOf(c), m[i])
  {
    GroupHashesFit(groupHashes);
    forall k | 0 <= k < |Needed(c)| ensures PairDelivered(SessionOf(c), m, k) {
      FineMessageFits(c, hs, groupHashes, k);
    }
    PairsCover(SessionOf(c), m, |Needed(c)|, i);
  }

  /** Listed groups are numbered in `u32`. */
  lemma ListedInRange(c: Config, k: nat)
    requires Meets(c) && k < |Needed(c)|
    ensures Needed(c)[k] * GROUP_SIZE < U32_LIMIT
  {
    var g := Needed(c)[k];
    assert g in Needed(c);
    assert g * GROUP_SIZE >= U32_LIMIT ==> |Slice(c.origin.pages, g)| == 0 && |Slice(c.replica.pages, g)| == 0;
    NeededExact(c);
    assert ListedRight(c.origin.pages, c.replica.pages, Needed(c), g);
  }

  /** Of all planned messages only two can be too large: the list of group hashes and the
      list of groups to inspect. */
  lemma DeliverableExactlyWhen(c: Config)
    requires Meets(c) && Framed(c)
    ensures Deliverable(c) ==> TwoListsFit(c)
    ensures TwoListsFit(c) && c.origin.pageSize <= MAX_PAGE_SIZE ==> Deliverable(c)
  {
    var p := PlanOf(c);
    NeededIsDiffering(c);
    ReplicaGroupsHashed(c.digest, c.replica.pages, R.NumGroups(|c.replica.pages|));
    GroupHashesFit(p.groupHashes);
    if Deliverable(c) {
      assert CarriedAt(SessionOf(c), p, 1);
    }
    if TwoListsFit(c) && c.origin.pageSize <= MAX_PAGE_SIZE {
      forall k | 0 <= k < |Needed(c)| ensures Needed(c)[k] * GROUP_SIZE < U32_LIMIT {
        ListedInRange(c, k);
      }
      forall i: nat ensures CarriedAt(SessionOf(c), p, i) {
        if i < |p.oMsgs| {
          OriginMessageFits(c, i);
        }
        if i < |p.rMsgs| {
          ReplicaMessagesFit(c, p.hashes, p.groupHashes, p.rMsgs, i);
        }
      }
    }
  }

  /** The two lists, in terms of the pages. */
  predicate TwoListsFit(c: Config) {
    && R.NumGroups(|c.replica.pages|) < GROUP_CAP
    && PayloadSize(GroupsNeedFine(DifferingGroups(c.origin.pages, c.replica.pages))) <= F.MAX_MESSAGE_SIZE
  }

  lemma {:induction false} SublistSmaller(a: seq<nat>, b: seq<nat>)
    requires forall i, j :: 0 <= i < j < |a| ==> a[i] < a[j]
    requires forall i, j :: 0 <= i < j < |b| ==> b[i] < b[j]
    requires forall x: nat :: x in a ==> x in b
    ensures |a| <= |b| && Varints(a) <= Varints(b)
    decreases |b|
  {
    if a != [] {
      var n := |a| - 1;
      assert a[n] in a && a[n] in b;
      var m := |b| - 1;
      var rest := if a[n] == b[m] then a[..n] else a;
      forall x: nat | x in rest ensures x in b[..m] {
        BelowLast(a, b, rest, x);
      }
      SublistSmaller(rest, b[..m]);
    }
  }

  lemma BelowLast(a: seq<nat>, b: seq<nat>, rest: seq<nat>, x: nat)
    requires a != [] && b != [] && (forall i, j :: 0 <= i < j < |a| ==> a[i] < a[j])
    requires forall i, j :: 0 <= i < j < |b| ==> b[i] < b[j]
    requires (forall y: nat :: y in a ==> y in b) && x in rest
    requires rest == if a[|a| - 1] == b[|b| - 1] then a[..|a| - 1] else a
    ensures x in b[..|b| - 1]
  {
    var i :| 0 <= i < |rest| && rest[i] == x;
    assert a[i] == x && x in a && a[|a| - 1] in a;
    var k :| 0 <= k < |b| && b[k] == a[|a| - 1];
    assert x != b[|b| - 1];
  }

  // ----- What the limit means -----

  /** Syncing over a framed transport, exactly: what a caller can check about the pages of
      the two databases alone. */
  lemma FramedSyncsExactlyWhen(c: Config)
    requires c.origin.Valid() && c.replica.Valid() && Framed(c) && c.origin.pageSize <= MAX_PAGE_SIZE
    requires CollisionFree(c.digest, c.origin.pages, c.replica.pages)
    ensures PagesAllow(c) && TwoListsFit(c) <==> exists schedule :: SyncedAfter(c, schedule)
  {
    SyncsExactlyWhen(c);
    if PagesAllow(c) {
      DeliverableExactlyWhen(c);
    }
  }

  /** Over a framed transport two Ok results always mean a synced replica: an origin beyond
      the page limit has too many groups for the messages of its session. */
  lemma FramedOkMeansSynced(c: Config, schedule: seq<Actor>)
    requires c.origin.Valid() && c.replica.Valid() && Framed(c)
    requires CollisionFree(c.digest, c.origin.pages, c.replica.pages)
    requires OkAfter(c, schedule)
    ensures SyncedAfter(c, schedule)
  {
    OkMeansSyncedExactlyWhen(c);
    if Truncates(c) {
      DeliverableExactlyWhen(c);
      TooManyGroups(c.origin.pages, c.replica.pages);
    }
  }

  lemma TooManyGroups(o: seq<Page>, r: seq<Page>)
    requires |o| > PAGE_LIMIT && R.NumGroups(|r|) < GROUP_CAP
    ensures PayloadSize(GroupsNeedFine(DifferingGroups(o, r))) > F.MAX_MESSAGE_SIZE
  {
    var listed, far := DifferingGroups(o, r), Range(GROUP_CAP, 8 * GROUP_CAP);
    DifferingExact(o, r);
    forall g: nat | g in far ensures g in listed {
      FarGroupListed(o, r, listed, g);
    }
    SublistSmaller(far, listed);
    VarintsAtLeast(far);
  }

  lemma FarGroupListed(o: seq<Page>, r: seq<Page>, listed: seq<nat>, g: nat)
    requires |o| > PAGE_LIMIT && R.NumGroups(|r|) < GROUP_CAP && g in Range(GROUP_CAP, 8 * GROUP_CAP)
    requires Exact(o, r, listed)
    ensures g in listed
  {
    assert GROUP_CAP <= g < 8 * GROUP_CAP;
    assert |Slice(r, g)| == 0 && |Slice(o, g)| > 0;
    assert ListedRight(o, r, listed, g);
  }

  lemma {:induction false} IncreasingShort(s: seq<nat>, n: nat)
    requires forall i, j :: 0 <= i < j < |s| ==> s[i] < s[j]
    requires forall i :: 0 <= i < |s| ==> s[i] < n
    ensures |s| <= n
  {
    if s != [] {
      IncreasingShort(s[..|s| - 1], s[|s| - 1]);
    }
  }

  /** Databases of up to four times that many groups fit, if the replica is below it. */
  lemma ModestListsFit(c: Config)
    requires Meets(c) && R.NumGroups(|c.replica.pages|) < GROUP_CAP && GroupCount(|c.origin.pages|) <= 4 * GROUP_CAP
    ensures TwoListsFit(c)
  {
    var o, r := c.origin.pages, c.replica.pages;
    var n := Max(GroupCount(|o|), R.NumGroups(|r|));
    O.SelectExact((g: nat) => Slice(o, g) != Slice(r, g) || (g == 0 && o == []), n);
    var s := DifferingGroups(o, r);
    forall i | 0 <= i < |s| ensures s[i] < n {
      assert s[i] in s;
    }
    ShortListFits(s, n);
  }

  lemma ShortListFits(s: seq<nat>, n: nat)
    requires n <= 4 * GROUP_CAP && forall i :: 0 <= i < |s| ==> s[i] < n
    requires forall i, j :: 0 <= i < j < |s| ==> s[i] < s[j]
    ensures PayloadSize(GroupsNeedFine(s)) <= F.MAX_MESSAGE_SIZE
  {
    IncreasingShort(s, n);
    VarintsAtMost(s);
  }

  /** A database with that many groups can be copied into an empty replica, but the same
      session on the result never succeeds again: the replica's list of group hashes has
      become too long. */
  lemma OnceButNotAgain(c: Config, again: Config)
    requires c.origin.Valid() && Framed(c) && c.origin.pageSize <= MAX_PAGE_SIZE
    requires c.replica == Database(c.origin.pageSize, []) && again == c.(replica := c.origin)
    requires CollisionFree(c.digest, c.origin.pages, []) && CollisionFree(c.digest, c.origin.pages, c.origin.pages)
    requires GROUP_CAP <= GroupCount(|c.origin.pages|) <= 4 * GROUP_CAP
    ensures exists schedule :: SyncedAfter(c, schedule)
    ensures forall schedule :: !OkAfter(again, schedule)
  {
    ModestListsFit(c);
    FramedSyncsExactlyWhen(c);
    FinishesExactlyWhen(again);
    DeliverableExactlyWhen(again);
  }

  // ----- Resuming over a framed transport -----

  /** A group that needs no inspection before an interrupted session needs none after it. */
  lemma SettledStays(o: seq<Page>, r: seq<Page>, n: nat, g: nat)
    requires |r| <= |o| && n <= |o| && Slice(o, g) == Slice(r, g)
    ensures Slice(o, g) == Slice(Overlay(o, r, n), g)
  {
    var so, sr, sf := Slice(o, g), Slice(r, g), Slice(Overlay(o, r, n), g);
    assert |so| == |sr| == |sf|;
    forall i | 0 <= i < |so| ensures so[i] == sf[i] {
      assert so[i] == sr[i];
    }
  }

  /** The list of groups to inspect only gets shorter. */
  lemma FewerListed(o: seq<Page>, r: seq<Page>, n: nat, before: seq<nat>, after: seq<nat>)
    requires |r| <= |o| && n <= |o| && Exact(o, r, before) && Exact(o, Overlay(o, r, n), after)
    ensures PayloadSize(GroupsNeedFine(after)) <= PayloadSize(GroupsNeedFine(before))
  {
    forall g: nat | g in after ensures g in before {
      assert ListedRight(o, Overlay(o, r, n), after, g) && ListedRight(o, r, before, g);
      if Slice(o, g) == Slice(r, g) {
        SettledStays(o, r, n, g);
      }
    }
    SublistSmaller(after, before);
  }

  lemma ShorterList(o: seq<Page>, r: seq<Page>, n: nat, file: seq<Page>)
    requires |r| <= |o| && n <= |o| && file == Overlay(o, r, n)
    ensures PayloadSize(GroupsNeedFine(DifferingGroups(o, file))) <= PayloadSize(GroupsNeedFine(DifferingGroups(o, r)))
  {
    DifferingExact(o, r);
    DifferingExact(o, file);
    FewerListed(o, r, n, DifferingGroups(o, r), DifferingGroups(o, file));
  }

  lemma ResumedListFits(c: Config, schedule: seq<Actor>, file: seq<Page>)
    requires Meets(c) && PagesAllow(c) && TwoListsFit(c) && file == Run(SessionOf(c), schedule).file
    ensures PayloadSize(GroupsNeedFine(DifferingGroups(c.origin.pages, file))) <= F.MAX_MESSAGE_SIZE
  {
    var next := CrashPrefix(c, schedule);
    ShorterList(c.origin.pages, c.replica.pages, next - 1, file);
  }

  lemma GroupHashesDecide(c: Config)
    requires Meets(c) && PagesAllow(c) && Framed(c) && c.origin.pageSize <= MAX_PAGE_SIZE
    requires PayloadSize(GroupsNeedFine(DifferingGroups(c.origin.pages, c.replica.pages))) <= F.MAX_MESSAGE_SIZE
    ensures R.NumGroups(|c.replica.pages|) < GROUP_CAP <==> exists later :: SyncedAfter(c, later)
  {
    FramedSyncsExactlyWhen(c);
  }

  /** Resuming over a framed transport, exactly: after an abort at any point of a session
      that could sync, a fresh session syncs iff the file left behind is still below the
      number of groups whose hashes fit into one message. */
  lemma FramedResumeExactlyWhen(c: Config, schedule: seq<Actor>, again: Config)
    requires Meets(c) && PagesAllow(c) && Framed(c) && TwoListsFit(c) && c.origin.pageSize <= MAX_PAGE_SIZE
    requires again == c.(replica := Database(c.replica.pageSize, Run(SessionOf(c), schedule).file))
    requires CollisionFree(c.digest, c.origin.pages, again.replica.pages)
    ensures R.NumGroups(|again.replica.pages|) < GROUP_CAP <==> exists later :: SyncedAfter(again, later)
  {
    ResumeAfterAbort(c, schedule, again);
    ResumedListFits(c, schedule, again.replica.pages);
    GroupHashesDecide(again);
  }

  /** No abort stands in the way of resuming a session into a database below that size. */
  lemma SmallOriginResumes(c: Config, schedule: seq<Actor>, again: Config)
    requires Meets(c) && PagesAllow(c) && Framed(c) && c.origin.pageSize <= MAX_PAGE_SIZE
    requires R.NumGroups(|c.origin.pages|) < GROUP_CAP
    requires again == c.(replica := Database(c.replica.pageSize, Run(SessionOf(c), schedule).file))
    requires CollisionFree(c.digest, c.origin.pages, again.replica.pages)
    ensures exists later :: SyncedAfter(again, later)
  {
    ModestListsFit(c);
    FramedResumeExactlyWhen(c, schedule, again);
    ResumeAfterAbort(c, schedule, again);
  }
}
