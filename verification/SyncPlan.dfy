/** The conversation of a concrete session, planned from the two databases. */
module SyncPlan {
  import opened Basics
  import opened Hashing
  import opened Protocol
  import opened SyncSession
  import opened PageDiff
  import opened SyncInvariant
  import O = OriginSide
  import R = ReplicaSide

  /** What a session can make of the replica: the origin's pages up to the page limit. */
  function Target(c: Config): seq<Page> {
    Reach(c.origin.pages)
  }

  /** The handshake goes through and the replica can hash its pages. */
  ghost predicate Meets(c: Config) {
    && c.origin.Valid() && c.replica.Valid() && |c.replica.pages| <= PAGE_LIMIT
    && (c.origin.pageSize == c.replica.pageSize || c.replica.pageSize == 0)
    && CollisionFree(c.digest, c.origin.pages, c.replica.pages)
  }

  // ----- The plan of a concrete session -----

  function Needed(c: Config): seq<nat> {
    var groups := ReplicaGroups(c.digest, Blake3V2, c.replica.pages);
    if groups.None? then [] else O.NeedFine(c.digest, Blake3V2, c.origin.pages, groups.value)
  }

  function Batch(c: Config, g: nat): seq<PageData> {
    if Covered(Target(c), c.replica.pages, g) then GroupDiff(Target(c), c.replica.pages, g) else []
  }

  function Batches(c: Config, groups: seq<nat>): (b: seq<seq<PageData>>)
    ensures |b| == |groups| && forall k :: 0 <= k < |b| ==> b[k] == Batch(c, groups[k])
  {
    seq(|groups|, k requires 0 <= k < |groups| => Batch(c, groups[k]))
  }

  function InRange(c: Config, groups: seq<nat>): (b: seq<bool>)
    ensures |b| == |groups|
    ensures forall k :: 0 <= k < |b| ==> b[k] == Covered(Target(c), c.replica.pages, groups[k])
  {
    seq(|groups|, k requires 0 <= k < |groups| => Covered(Target(c), c.replica.pages, groups[k]))
  }

  function OriginMessages(c: Config, needFine: seq<nat>, batches: seq<seq<PageData>>): (m: seq<Message>)
    ensures |m| == 3 + |batches|
    ensures m[0] == HelloAck(PROTOCOL_VERSION, c.origin.pageSize, |c.origin.pages|)
    ensures m[1] == GroupsNeedFine(needFine)
    ensures m[2 + |batches|] == Done
    ensures forall k :: 0 <= k < |batches| ==> m[2 + k] == SendPages(batches[k])
  {
    [HelloAck(PROTOCOL_VERSION, c.origin.pageSize, |c.origin.pages|), GroupsNeedFine(needFine)] +
    seq(|batches|, k requires 0 <= k < |batches| => SendPages(batches[k])) + [Done]
  }

  /** The replica's two messages for each of the first `k` listed groups. */
  function FineMessages(hs: seq<Hash>, needFine: seq<nat>, batches: seq<seq<PageData>>, k: nat): (m: seq<Message>)
    requires k <= |batches| == |needFine|
    ensures |m| == 2 * k
    ensures forall i :: 0 <= i < k ==> FineAt(hs, needFine, batches, m, i)
  {
    if k == 0 then []
    else
      var init, g := FineMessages(hs, needFine, batches, k - 1), needFine[k - 1];
      var listed := PageHashes(R.GroupPageNos(|hs|, g), R.GroupPageHashes(hs, g));
      var m := init + [listed, PagesAck(R.PageNosOf(batches[k - 1]))];
      assert forall i :: 0 <= i < k - 1 ==>
        FineAt(hs, needFine, batches, init, i) ==> FineAt(hs, needFine, batches, m, i);
      m
  }

  predicate FineAt(hs: seq<Hash>, needFine: seq<nat>, batches: seq<seq<PageData>>, m: seq<Message>, i: nat)
    requires i < |batches| == |needFine| && 2 * i + 1 < |m|
  {
    && m[2 * i] == PageHashes(R.GroupPageNos(|hs|, needFine[i]), R.GroupPageHashes(hs, needFine[i]))
    && m[2 * i + 1] == PagesAck(R.PageNosOf(batches[i]))
  }

  function ReplicaMessages(c: Config, hs: seq<Hash>, groupHashes: seq<Hash>,
                           needFine: seq<nat>, batches: seq<seq<PageData>>): (m: seq<Message>)
    requires |batches| == |needFine|
    ensures |m| == 2 + 2 * |needFine|
    ensures m[0] == Hello(PROTOCOL_VERSION, c.replica.pageSize, |c.replica.pages|)
    ensures m[1] == GroupHashes(0, groupHashes)
    ensures m[2..] == FineMessages(hs, needFine, batches, |needFine|)
  {
    [Hello(PROTOCOL_VERSION, c.replica.pageSize, |c.replica.pages|), GroupHashes(0, groupHashes)] +
    FineMessages(hs, needFine, batches, |needFine|)
  }

  function PlanOf(c: Config): Plan {
    var hs := HashPages(c.digest, Blake3V2, c.replica.pages);
    var groups := ReplicaGroups(c.digest, Blake3V2, c.replica.pages);
    var groupHashes := if groups.None? then [] else groups.value;
    var needFine := Needed(c);
    var batches := Batches(c, needFine);
    Plan(hs, groupHashes, needFine, batches, InRange(c, needFine),
         OriginMessages(c, needFine, batches), ReplicaMessages(c, hs, groupHashes, needFine, batches))
  }

  lemma NeededExact(c: Config)
    requires Meets(c)
    ensures ReplicaGroups(c.digest, Blake3V2, c.replica.pages).Some?
    ensures Exact(c.origin.pages, c.replica.pages, Needed(c))
  {
    ReplicaGroupsHashed(c.digest, c.replica.pages, R.NumGroups(|c.replica.pages|));
    CoarsePassExact(c.digest, c.origin.pages, c.replica.pages, Needed(c));
  }

  /** A batch has no page twice, and its pages are pages of the origin. */
  lemma BatchShape(c: Config, g: nat)
    requires c.origin.Valid()
    ensures NoDuplicates(R.PageNosOf(Batch(c, g)))
    ensures forall i :: 0 <= i < |Batch(c, g)| ==>
              1 <= Batch(c, g)[i].pageNo <= |Target(c)| && |Batch(c, g)[i].data| == c.origin.pageSize
  {
    var o, r, b := Target(c), c.replica.pages, Batch(c, g);
    DiffExact(o, r, GroupStart(o, g), GroupEnd(o, g), GroupDiff(o, r, g));
    var nos := R.PageNosOf(b);
    assert forall i, j :: 0 <= i < j < |nos| ==> nos[i] < nos[j];
    assert forall i :: 0 <= i < |b| ==> b[i].data == o[b[i].pageNo - 1];
  }

  lemma ReplyFits(c: Config, g: nat)
    requires Meets(c) && g in Needed(c)
    ensures var hs := HashPages(c.digest, Blake3V2, c.replica.pages);
            FineReplyTo(c.digest, Blake3V2, c.origin.pages, g, R.GroupPageNos(|hs|, g), R.GroupPageHashes(hs, g)) ==
            if Covered(Target(c), c.replica.pages, g) then Reply(Batch(c, g)) else Panic
  {
    NeededExact(c);
    assert ListedRight(c.origin.pages, c.replica.pages, Needed(c), g);
    FinePassExact(c.digest, c.origin.pages, c.replica.pages, g);
  }

  lemma MessagesFit(c: Config, hs: seq<Hash>, groupHashes: seq<Hash>,
                    needFine: seq<nat>, batches: seq<seq<PageData>>, k: nat)
    requires |batches| == |needFine| && k < |needFine|
    ensures var m := ReplicaMessages(c, hs, groupHashes, needFine, batches);
            && m[2 + 2 * k] == PageHashes(R.GroupPageNos(|hs|, needFine[k]), R.GroupPageHashes(hs, needFine[k]))
            && m[3 + 2 * k] == PagesAck(R.PageNosOf(batches[k]))
  {
    var m := ReplicaMessages(c, hs, groupHashes, needFine, batches);
    var fine := FineMessages(hs, needFine, batches, |needFine|);
    assert FineAt(hs, needFine, batches, fine, k);
    assert m[2 + 2 * k] == m[2..][2 * k] && m[3 + 2 * k] == m[2..][2 * k + 1];
  }

  /** A session over these databases, with any size test and any way of writing. */
  ghost predicate Variant(c: Config, e: Session) {
    e == SessionOf(c).(fits := e.fits, write := e.write)
  }

  /** Every page of a batch can be written into any file. */
  ghost predicate Takes(e: Session, batch: seq<PageData>) {
    forall i, file :: 0 <= i < |batch| ==> e.write(file, batch[i]).Some?
  }

  lemma FineStepFits(c: Config, e: Session, p: Plan, k: nat)
    requires Meets(c) && Variant(c, e) && p.Sized() && k < p.N() && p.needFine == Needed(c)
    requires p.hashes == HashPages(c.digest, Blake3V2, c.replica.pages)
    requires p.inRange[k] == Covered(Target(c), c.replica.pages, p.needFine[k])
    requires p.batches[k] == Batch(c, p.needFine[k]) && Takes(e, p.batches[k])
    requires var g := p.needFine[k];
             p.rMsgs[2 + 2 * k] == PageHashes(R.GroupPageNos(|p.hashes|, g), R.GroupPageHashes(p.hashes, g))
    requires p.rMsgs[3 + 2 * k] == PagesAck(R.PageNosOf(p.batches[k]))
    requires p.oMsgs[2 + k] == SendPages(p.batches[k])
    ensures FineFits(e, p, k)
  {
    var g := p.needFine[k];
    assert g in Needed(c);
    ReplyFits(c, g);
    BatchShape(c, g);
  }

  /** Where the transport carries the plan and the file takes its pages, every honest
      message is accepted at its turn and answered as planned. */
  lemma PlanFits(c: Config, e: Session)
    requires Meets(c) && Variant(c, e) && Carried(e, PlanOf(c))
    requires forall k :: 0 <= k < PlanOf(c).N() ==> Takes(e, PlanOf(c).batches[k])
    ensures Fits(e, PlanOf(c))
  {
    var p := PlanOf(c);
    NeededExact(c);
    forall k | 0 <= k < p.N() ensures FineFits(e, p, k) {
      MessagesFit(c, p.hashes, p.groupHashes, p.needFine, p.batches, k);
      FineStepFits(c, e, p, k);
    }
  }

  // ----- What is transferred -----

  lemma CoveredBelow(o: seq<Page>, r: seq<Page>, g: nat, g': nat)
    requires g <= g' && Covered(o, r, g')
    ensures Covered(o, r, g)
  {
  }

  /** Batch `k` leads from mark `k` to the next, or is empty. */
  predicate Carries(batches: seq<seq<PageData>>, marks: seq<seq<PageData>>, inRange: seq<bool>, k: nat)
    requires k < |batches| == |inRange| && |marks| == |batches| + 1
  {
    if inRange[k] then marks[k] + batches[k] == marks[k + 1] else batches[k] == []
  }

  /** Batches that lead from mark to mark concatenate to a mark; to mark `k` when none of
      the first `k` is out of range. */
  lemma {:induction false} FlatMark(batches: seq<seq<PageData>>, marks: seq<seq<PageData>>,
                                    inRange: seq<bool>, k: nat) returns (m: nat)
    requires k <= |batches| == |inRange| && |marks| == |batches| + 1 && marks[0] == []
    requires forall i :: 0 <= i < |batches| ==> Carries(batches, marks, inRange, i)
    requires forall i, j :: 0 <= i < j < |inRange| && inRange[j] ==> inRange[i]
    ensures m <= k && Flat(batches, k) == marks[m]
    ensures (forall i :: 0 <= i < k ==> inRange[i]) ==> m == k
  {
    if k == 0 {
      m := 0;
    } else {
      m := FlatMark(batches, marks, inRange, k - 1);
      assert Carries(batches, marks, inRange, k - 1);
      if inRange[k - 1] {
        m := k;
      }
    }
  }

  ghost predicate AllOf(o: seq<Page>, r: seq<Page>, needFine: seq<nat>, k: nat)
    requires k <= |needFine|
  {
    forall i :: 0 <= i < k ==> Covered(o, r, needFine[i])
  }

  /** Some listed group is uncovered exactly when the replica is longer. */
  lemma AllCovered(o: seq<Page>, r: seq<Page>, needFine: seq<nat>)
    requires Complete(o, r, needFine)
    ensures AllOf(o, r, needFine, |needFine|) <==> |r| <= |o|
  {
    if |r| > |o| {
      var g := |o| / GROUP_SIZE;
      assert |Slice(o, g)| != |Slice(r, g)|;
      assert MustList(o, r, needFine, g);
      var i :| 0 <= i < |needFine| && needFine[i] == g;
      assert !Covered(o, r, needFine[i]);
    }
  }

  /** All batches together, in terms of the pages. */
  lemma FlatTransfer(o: seq<Page>, r: seq<Page>, needFine: seq<nat>,
                     batches: seq<seq<PageData>>, inRange: seq<bool>) returns (end: nat)
    requires Complete(o, r, needFine) && |needFine| == |batches| == |inRange|
    requires forall i :: 0 <= i < |batches| ==>
               batches[i] == if Covered(o, r, needFine[i]) then GroupDiff(o, r, needFine[i]) else []
    requires forall i :: 0 <= i < |inRange| ==> inRange[i] == Covered(o, r, needFine[i])
    ensures 1 <= end <= |o| + 1
    ensures Flat(batches, |batches|) == Diff(o, r, 1, end)
    ensures (forall i :: 0 <= i < |inRange| ==> inRange[i]) <==> |r| <= |o|
    ensures |r| <= |o| ==> end == |o| + 1
  {
    AllCovered(o, r, needFine);
    NothingBeforeFirst(o, r, needFine);
    var marks := seq(|batches| + 1, (k: nat) => Diff(o, r, 1, Frontier(o, needFine, k)));
    forall k | 0 <= k < |batches| ensures Carries(batches, marks, inRange, k) {
      FrontierStep(o, r, needFine, k);
    }
    forall i, j | 0 <= i < j < |inRange| && inRange[j] ensures inRange[i] {
      CoveredBelow(o, r, needFine[i], needFine[j]);
    }
    var m := FlatMark(batches, marks, inRange, |batches|);
    end := Frontier(o, needFine, m);
  }

  /** The whole transfer, in terms of the two databases. */
  lemma Transfer(c: Config, p: Plan) returns (end: nat)
    requires Meets(c) && p.needFine == Needed(c)
    requires p.batches == Batches(c, p.needFine) && p.inRange == InRange(c, p.needFine)
    ensures 1 <= end <= |Target(c)| + 1
    ensures Flat(p.batches, p.N()) == Diff(Target(c), c.replica.pages, 1, end)
    ensures Passed(p, p.N()) <==> |c.replica.pages| <= |c.origin.pages|
    ensures |c.replica.pages| <= |c.origin.pages| ==> end == |Target(c)| + 1
  {
    NeededExact(c);
    ExactIsComplete(c.origin.pages, c.replica.pages, p.needFine);
    end := FlatTransfer(Target(c), c.replica.pages, p.needFine, p.batches, p.inRange);
  }
}
