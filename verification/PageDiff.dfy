/** What a sync has to move, said without hashes or groups, and the proof that the
    two-pass comparison finds exactly that. */
module PageDiff {
  import opened Basics
  import opened Hashing
  import opened Protocol
  import O = OriginSide
  import R = ReplicaSide

  /** Page `p` (1-based) of `o` is missing from `r` or differs from it. */
  predicate Differs(o: seq<Page>, r: seq<Page>, p: nat)
    requires 1 <= p <= |o|
  {
    p > |r| || o[p - 1] != r[p - 1]
  }

  /** The differing pages numbered `lo..hi`, in order, with the origin's bytes. */
  function Diff(o: seq<Page>, r: seq<Page>, lo: nat, hi: nat): seq<PageData>
    requires 1 <= lo <= hi <= |o| + 1
    decreases hi
  {
    if lo == hi then []
    else Diff(o, r, lo, hi - 1) + if Differs(o, r, hi - 1) then [PageData(hi - 1, o[hi - 2])] else []
  }

  /** The first `n` pages of `o`, followed by what `r` has beyond them. */
  function Overlay(o: seq<Page>, r: seq<Page>, n: nat): (s: seq<Page>)
    requires n <= |o|
    ensures |s| == Max(n, |r|)
    ensures forall i :: 0 <= i < |s| ==> s[i] == if i < n then o[i] else r[i]
  {
    o[..n] + if n <= |r| then r[n..] else []
  }

  lemma {:induction false} DiffSplit(o: seq<Page>, r: seq<Page>, lo: nat, mid: nat, hi: nat)
    requires 1 <= lo <= mid <= hi <= |o| + 1
    ensures Diff(o, r, lo, hi) == Diff(o, r, lo, mid) + Diff(o, r, mid, hi)
    decreases hi
  {
    if mid < hi {
      DiffSplit(o, r, lo, mid, hi - 1);
    }
  }

  lemma {:induction false} DiffEmpty(o: seq<Page>, r: seq<Page>, lo: nat, hi: nat)
    requires 1 <= lo <= hi <= |o| + 1
    requires forall p :: lo <= p < hi ==> !Differs(o, r, p)
    ensures Diff(o, r, lo, hi) == []
    decreases hi
  {
    if lo < hi {
      DiffEmpty(o, r, lo, hi - 1);
    }
  }

  /** `Diff` lists each differing page of the range once, in increasing order. */
  lemma {:induction false} DiffExact(o: seq<Page>, r: seq<Page>, lo: nat, hi: nat, s: seq<PageData>)
    requires 1 <= lo <= hi <= |o| + 1 && s == Diff(o, r, lo, hi)
    ensures forall i :: 0 <= i < |s| ==>
              lo <= s[i].pageNo < hi && Differs(o, r, s[i].pageNo) && s[i].data == o[s[i].pageNo - 1]
    ensures forall i, j :: 0 <= i < j < |s| ==> s[i].pageNo < s[j].pageNo
    ensures forall p :: lo <= p < hi && Differs(o, r, p) ==> PageData(p, o[p - 1]) in s
    decreases hi
  {
    if lo < hi {
      var init := Diff(o, r, lo, hi - 1);
      DiffExact(o, r, lo, hi - 1, init);
      assert s == if Differs(o, r, hi - 1) then init + [PageData(hi - 1, o[hi - 2])] else init;
    }
  }

  /** Every prefix of the transfer is itself the transfer of an initial page range. */
  lemma {:induction false} DiffPrefix(o: seq<Page>, r: seq<Page>, hi: nat, n: nat) returns (cut: nat)
    requires 1 <= hi <= |o| + 1 && n <= |Diff(o, r, 1, hi)|
    ensures 1 <= cut <= hi && Diff(o, r, 1, hi)[..n] == Diff(o, r, 1, cut)
    decreases hi
  {
    if n == |Diff(o, r, 1, hi)| {
      cut := hi;
    } else {
      cut := DiffPrefix(o, r, hi - 1, n);
    }
  }

  /** Writing the differing pages below `hi` turns `r` into `o` up to there, and no
      write ever skips past the end of the file. */
  lemma {:induction false} ApplyDiff(o: seq<Page>, r: seq<Page>, pageSize: nat, hi: nat)
    requires 1 <= hi <= |o| + 1
    requires forall i :: 0 <= i < |o| ==> |o[i]| == pageSize
    ensures R.Apply(r, pageSize, Diff(o, r, 1, hi)) == Some(Overlay(o, r, hi - 1))
    decreases hi
  {
    if hi == 1 {
      assert Overlay(o, r, 0) == r;
    } else {
      ApplyDiff(o, r, pageSize, hi - 1);
      var init, all := Diff(o, r, 1, hi - 1), Diff(o, r, 1, hi);
      OverlayStep(o, r, pageSize, hi);
      if Differs(o, r, hi - 1) {
        assert all == init + [PageData(hi - 1, o[hi - 2])];
        assert all[..|all| - 1] == init;
      } else {
        assert all == init;
      }
    }
  }

  /** Writing page `hi - 1`, if it differs, extends the overlay by it. */
  lemma OverlayStep(o: seq<Page>, r: seq<Page>, pageSize: nat, hi: nat)
    requires 2 <= hi <= |o| + 1 && |o[hi - 2]| == pageSize
    ensures var before, after := Overlay(o, r, hi - 2), Overlay(o, r, hi - 1);
            if Differs(o, r, hi - 1) then WritePage(before, pageSize, hi - 1, o[hi - 2]) == Some(after)
            else before == after
  {
    var before, after := Overlay(o, r, hi - 2), Overlay(o, r, hi - 1);
    if hi - 1 <= |before| {
      assert before[hi - 2 := o[hi - 2]] == after;
    } else {
      assert before + seq(hi - 2 - |before|, _ => ZeroPage(pageSize)) + [o[hi - 2]] == after;
    }
  }

  // ----- The hash comparisons decide equality -----

  /** The digest tells these two inputs apart, if they differ. */
  predicate Separates(d: Digest, a: seq<Byte>, b: seq<Byte>) {
    d(Blake3V2, a) == d(Blake3V2, b) ==> a == b
  }

  function GroupBytes(d: Digest, pages: seq<Page>, g: nat): seq<Byte> {
    Concat(HashPages(d, Blake3V2, Slice(pages, g)))
  }

  predicate PageSeparated(d: Digest, o: seq<Page>, r: seq<Page>, i: nat) {
    i < |o| && i < |r| ==> Separates(d, o[i], r[i])
  }

  predicate GroupSeparated(d: Digest, o: seq<Page>, r: seq<Page>, g: nat) {
    Separates(d, GroupBytes(d, o, g), GroupBytes(d, r, g))
  }

  ghost predicate PagesSeparated(d: Digest, o: seq<Page>, r: seq<Page>) {
    forall i: nat :: PageSeparated(d, o, r, i)
  }

  /** No collision among the inputs one session compares: pages at the same position,
      and the concatenated page hashes of the same group. */
  ghost predicate CollisionFree(d: Digest, o: seq<Page>, r: seq<Page>) {
    && PagesSeparated(d, o, r)
    && (forall g: nat :: GroupSeparated(d, o, r, g))
  }

  lemma GroupHashDecides(d: Digest, o: seq<Page>, r: seq<Page>, g: nat)
    requires CollisionFree(d, o, r)
    ensures d(Blake3V2, GroupBytes(d, o, g)) == d(Blake3V2, GroupBytes(d, r, g)) <==> Slice(o, g) == Slice(r, g)
  {
    if d(Blake3V2, GroupBytes(d, o, g)) == d(Blake3V2, GroupBytes(d, r, g)) {
      var so, sr := Slice(o, g), Slice(r, g);
      assert GroupSeparated(d, o, r, g);
      ConcatInjective(HashPages(d, Blake3V2, so), HashPages(d, Blake3V2, sr));
      assert |so| == |sr|;
      forall i | 0 <= i < |so| ensures so[i] == sr[i] {
        assert HashPages(d, Blake3V2, so)[i] == HashPages(d, Blake3V2, sr)[i];
        assert PageSeparated(d, o, r, g * GROUP_SIZE + i);
      }
    }
  }

  lemma SliceHashes(d: Digest, pages: seq<Page>, g: nat)
    ensures Slice(HashPages(d, Blake3V2, pages), g) == HashPages(d, Blake3V2, Slice(pages, g))
  {
  }

  /** Below the page limit the replica's group hashing never panics and yields, for each
      group, the digest of that group's bytes. */
  lemma ReplicaGroupsHashed(d: Digest, r: seq<Page>, n: nat)
    requires |r| <= PAGE_LIMIT && n <= R.NumGroups(|r|)
    ensures var h := R.Collect(R.GroupHashes(d, Blake3V2, HashPages(d, Blake3V2, r)), 0, n);
            && h.Some? && |h.value| == n
            && forall g :: 0 <= g < n ==> h.value[g] == d(Blake3V2, GroupBytes(d, r, g))
  {
    var f := R.GroupHashes(d, Blake3V2, HashPages(d, Blake3V2, r));
    forall g: nat | g < n ensures f(g) == Some(d(Blake3V2, GroupBytes(d, r, g))) {
      ReplicaGroupHashed(d, r, g);
    }
    R.CollectExact(f, n);
  }

  lemma ReplicaGroupHashed(d: Digest, r: seq<Page>, g: nat)
    requires |r| <= PAGE_LIMIT && g < R.NumGroups(|r|)
    ensures R.GroupHashes(d, Blake3V2, HashPages(d, Blake3V2, r))(g) == Some(d(Blake3V2, GroupBytes(d, r, g)))
  {
    SliceHashes(d, r, g);
    GroupSliceIsSlice(HashPages(d, Blake3V2, r), g);
  }

  lemma GroupSliceIsSlice(hs: seq<Hash>, g: nat)
    requires |hs| <= PAGE_LIMIT && g < R.NumGroups(|hs|)
    ensures R.GroupSlice(hs, g) == Some(Slice(hs, g))
  {
    assert g * GROUP_SIZE <= |hs| && (g + 1) * GROUP_SIZE < U32_LIMIT;
  }

  lemma OriginGroupHashed(d: Digest, o: seq<Page>, g: nat)
    requires g < GroupCount(|o|) && (g + 1) * GROUP_SIZE < U32_LIMIT
    ensures FirstPage(g) <= |o|
    ensures O.GroupHash(d, Blake3V2, o, g) == d(Blake3V2, GroupBytes(d, o, g))
  {
    assert O.Span(o, FirstPage(g), LastPage(g, |o|)) == Slice(o, g);
  }

  function SessionGroupHashes(d: Digest, r: seq<Page>): Option<seq<Hash>> {
    R.Collect(R.GroupHashes(d, Blake3V2, HashPages(d, Blake3V2, r)), 0, R.NumGroups(|r|))
  }

  /** The coarse pass is exact: strictly increasing, and group `g` is listed exactly when
      the two sides' slices of it differ.  The one exception is group 0 of an empty origin,
      which is always listed. */
  lemma CoarsePassExact(d: Digest, o: seq<Page>, r: seq<Page>, needFine: seq<nat>)
    requires |o| < U32_LIMIT && |r| <= PAGE_LIMIT && CollisionFree(d, o, r)
    requires SessionGroupHashes(d, r).Some?
    requires needFine == O.NeedFine(d, Blake3V2, o, SessionGroupHashes(d, r).value)
    ensures Exact(o, r, needFine)
  {
    var hs := SessionGroupHashes(d, r).value;
    var p := O.Mismatch(d, Blake3V2, o, hs);
    ReplicaGroupsHashed(d, r, R.NumGroups(|r|));
    SelectThenRange(p, |hs|, GroupCount(|o|), needFine);
    forall g: nat ensures ListedRight(o, r, needFine, g) {
      if g < |hs| {
        ListedGroup(d, o, r, hs, g);
      } else {
        UnreportedGroup(o, r, g);
      }
    }
  }

  lemma SelectThenRange(p: nat -> bool, n: nat, hi: nat, s: seq<nat>)
    requires s == O.Select(p, 0, n) + Range(n, hi)
    ensures forall i, j :: 0 <= i < j < |s| ==> s[i] < s[j]
    ensures forall g: nat :: g in s <==> if g < n then p(g) else g < hi
  {
    O.SelectExact(p, n);
    var listed, rest := O.Select(p, 0, n), Range(n, hi);
    assert forall i :: 0 <= i < |listed| ==> listed[i] in listed;
    forall g: nat ensures g in rest <==> n <= g < hi {
      if n <= g < hi {
        assert rest[g - n] == g;
      }
    }
  }

  lemma UnreportedGroup(o: seq<Page>, r: seq<Page>, g: nat)
    requires g >= R.NumGroups(|r|)
    ensures g < GroupCount(|o|) <==> Slice(o, g) != Slice(r, g)
  {
    assert |Slice(r, g)| == 0;
    assert g < GroupCount(|o|) <==> |Slice(o, g)| > 0;
  }

  lemma ListedGroup(d: Digest, o: seq<Page>, r: seq<Page>, hs: seq<Hash>, g: nat)
    requires |r| <= PAGE_LIMIT && CollisionFree(d, o, r)
    requires g < R.NumGroups(|r|) == |hs| && hs[g] == d(Blake3V2, GroupBytes(d, r, g))
    ensures O.Mismatch(d, Blake3V2, o, hs)(g) <==> Slice(o, g) != Slice(r, g) || (g == 0 && o == [])
  {
    if g < GroupCount(|o|) {
      OriginGroupHashed(d, o, g);
      GroupHashDecides(d, o, r, g);
    } else {
      assert |Slice(o, g)| == 0;
      assert g > 0 || r != [] ==> |Slice(r, g)| > 0;
    }
  }

  // ----- The fine pass sends the difference -----

  /** First page of group `g` that could matter, clipped to the origin. */
  function GroupStart(o: seq<Page>, g: nat): (p: nat)
    ensures 1 <= p <= |o| + 1
  {
    Min(g * GROUP_SIZE, |o|) + 1
  }

  function GroupEnd(o: seq<Page>, g: nat): (p: nat)
    ensures GroupStart(o, g) <= p <= |o| + 1
  {
    Min((g + 1) * GROUP_SIZE, |o|) + 1
  }

  function GroupDiff(o: seq<Page>, r: seq<Page>, g: nat): seq<PageData> {
    Diff(o, r, GroupStart(o, g), GroupEnd(o, g))
  }

  /** All the replica's pages in group `g` exist on the origin too. */
  predicate Covered(o: seq<Page>, r: seq<Page>, g: nat) {
    Min((g + 1) * GROUP_SIZE, |r|) <= |o|
  }

  /** For a group the coarse pass listed, the honest page hashes are accepted.  The
      origin then answers with exactly the group's difference, up to the page limit, or
      panics exactly when the replica has a page there that the origin lacks. */
  lemma FinePassExact(d: Digest, o: seq<Page>, r: seq<Page>, g: nat)
    requires |o| < U32_LIMIT && |r| <= PAGE_LIMIT && PagesSeparated(d, o, r)
    requires Slice(o, g) != Slice(r, g) || (g == 0 && o == [])
    ensures var nos, hs := R.GroupPageNos(|r|, g), R.GroupPageHashes(HashPages(d, Blake3V2, r), g);
            && O.PrefixOfGroup(nos, g)
            && O.FinePages(d, Blake3V2, o, g, nos, hs) ==
               if Covered(Reach(o), r, g) then Some(GroupDiff(Reach(o), r, g)) else None
  {
    if |o| <= PAGE_LIMIT {
      FineWithinLimit(d, o, r, g);
    } else if (g + 1) * GROUP_SIZE <= PAGE_LIMIT {
      SliceInReach(o, g);
      assert forall i: nat :: PageSeparated(d, o, r, i) ==> PageSeparated(d, Reach(o), r, i);
      FineWithinLimit(d, Reach(o), r, g);
      GroupPagesShape(|r|, g);
      SameAnswer(d, o, g, R.GroupPageNos(|r|, g), R.GroupPageHashes(HashPages(d, Blake3V2, r), g));
    } else {
      WrappedGroup(d, o, r, g, R.GroupPageNos(|r|, g), R.GroupPageHashes(HashPages(d, Blake3V2, r), g));
    }
  }

  /** Below the limit, the pages beyond it play no part in a group. */
  lemma SliceInReach(o: seq<Page>, g: nat)
    requires (g + 1) * GROUP_SIZE <= PAGE_LIMIT
    ensures Slice(Reach(o), g) == Slice(o, g)
  {
  }

  lemma SameAnswer(d: Digest, o: seq<Page>, g: nat, nos: seq<nat>, hs: seq<Hash>)
    requires |o| > PAGE_LIMIT && (g + 1) * GROUP_SIZE <= PAGE_LIMIT && |nos| == |hs| && O.PrefixOfGroup(nos, g)
    requires forall i :: 0 <= i < |nos| ==> nos[i] <= PAGE_LIMIT
    ensures O.FinePages(d, Blake3V2, o, g, nos, hs) == O.FinePages(d, Blake3V2, Reach(o), g, nos, hs)
  {
    SameChanged(d, o, Reach(o), nos, hs, |nos|);
    var next, last := O.NextMissing(nos, FirstPage(g)), LastPage(g, |o|);
    assert last == LastPage(g, |Reach(o)|);
    assert O.PagesFrom(o, next, last) == O.PagesFrom(Reach(o), next, last);
  }

  lemma {:induction false} SameChanged(d: Digest, o: seq<Page>, p: seq<Page>, nos: seq<nat>, hs: seq<Hash>, n: nat)
    requires n <= |nos| == |hs| && p <= o && forall i :: 0 <= i < n ==> 1 <= nos[i] <= |p|
    ensures O.InSnapshot(o, nos, n) && O.InSnapshot(p, nos, n)
    ensures O.ChangedIn(d, Blake3V2, o, nos, hs, n) == O.ChangedIn(d, Blake3V2, p, nos, hs, n)
  {
    if n > 0 {
      SameChanged(d, o, p, nos, hs, n - 1);
    }
  }

  /** The one group beyond the limit: its end wraps to zero, so nothing is sent for it. */
  lemma WrappedGroup(d: Digest, o: seq<Page>, r: seq<Page>, g: nat, nos: seq<nat>, hs: seq<Hash>)
    requires PAGE_LIMIT < |o| < U32_LIMIT && |r| <= PAGE_LIMIT && PAGE_LIMIT < (g + 1) * GROUP_SIZE
    requires Slice(o, g) != Slice(r, g) && nos == R.GroupPageNos(|r|, g) && |hs| == |nos|
    ensures O.PrefixOfGroup(nos, g) && Covered(Reach(o), r, g) && GroupDiff(Reach(o), r, g) == []
    ensures O.FinePages(d, Blake3V2, o, g, nos, hs) == Some([])
  {
    assert g * GROUP_SIZE == PAGE_LIMIT by {
      assert |Slice(r, g)| == 0;
      assert |Slice(o, g)| > 0;
    }
    assert FirstPage(g) == PAGE_LIMIT + 1 && LastPage(g, |o|) == 0;
    assert GroupStart(Reach(o), g) == GroupEnd(Reach(o), g) == PAGE_LIMIT + 1;
    assert nos == [];
    assert O.ChangedIn(d, Blake3V2, o, nos, hs, |nos|) + O.PagesFrom(o, PAGE_LIMIT + 1, 0) == [];
  }

  /** An origin within the limit. */
  lemma FineWithinLimit(d: Digest, o: seq<Page>, r: seq<Page>, g: nat)
    requires |o| <= PAGE_LIMIT && |r| <= PAGE_LIMIT && PagesSeparated(d, o, r)
    requires Slice(o, g) != Slice(r, g) || (g == 0 && o == [])
    ensures var nos, hs := R.GroupPageNos(|r|, g), R.GroupPageHashes(HashPages(d, Blake3V2, r), g);
            && O.PrefixOfGroup(nos, g)
            && O.FinePages(d, Blake3V2, o, g, nos, hs) ==
               if Covered(o, r, g) then Some(GroupDiff(o, r, g)) else None
  {
    var all := HashPages(d, Blake3V2, r);
    var nos, hs := R.GroupPageNos(|r|, g), R.GroupPageHashes(all, g);
    ListedBounds(o, r, g);
    GroupPagesShape(|r|, g);
    assert |nos| <= GROUP_SIZE;
    if Covered(o, r, g) {
      CoveredAnswer(d, o, r, g, nos, hs);
    } else {
      assert nos[|nos| - 1] > |o|;
      assert !O.InSnapshot(o, nos, |nos|);
    }
  }

  /** Below the page limit, the replica lists its pages of a group without wrap-around. */
  lemma GroupPagesShape(count: nat, g: nat)
    requires count <= PAGE_LIMIT && g * GROUP_SIZE < PAGE_LIMIT
    ensures FirstPage(g) == g * GROUP_SIZE + 1 && Wrap32((g + 1) * GROUP_SIZE) == (g + 1) * GROUP_SIZE
    ensures R.GroupPageNos(count, g) == Range(g * GROUP_SIZE + 1, Min((g + 1) * GROUP_SIZE, count) + 1)
  {
  }

  lemma CoveredAnswer(d: Digest, o: seq<Page>, r: seq<Page>, g: nat, nos: seq<nat>, hs: seq<Hash>)
    requires |o| <= PAGE_LIMIT && PagesSeparated(d, o, r) && Covered(o, r, g)
    requires g * GROUP_SIZE < |o| || (g == 0 && o == [] && r == [])
    requires nos == Range(g * GROUP_SIZE + 1, Min((g + 1) * GROUP_SIZE, |r|) + 1) && O.PrefixOfGroup(nos, g)
    requires |hs| == |nos| && forall i :: 0 <= i < |nos| ==> 1 <= nos[i] <= |r| && hs[i] == d(Blake3V2, r[nos[i] - 1])
    ensures O.FinePages(d, Blake3V2, o, g, nos, hs) == Some(GroupDiff(o, r, g))
  {
    var first := g * GROUP_SIZE + 1;
    ComparedPrefix(d, o, r, first, nos, hs, |nos|);
    AnswerPieces(o, r, g, nos, first, O.ChangedIn(d, Blake3V2, o, nos, hs, |nos|));
  }

  /** The changed pages among the listed ones, then the pages after them. */
  lemma AnswerPieces(o: seq<Page>, r: seq<Page>, g: nat, nos: seq<nat>, first: nat, changed: seq<PageData>)
    requires |o| <= PAGE_LIMIT && Covered(o, r, g) && first == g * GROUP_SIZE + 1
    requires g * GROUP_SIZE < |o| || (g == 0 && o == [] && r == [])
    requires nos == Range(first, Min((g + 1) * GROUP_SIZE, |r|) + 1) && first + |nos| <= |o| + 1
    requires changed == Diff(o, r, first, first + |nos|)
    ensures changed + O.PagesFrom(o, O.NextMissing(nos, FirstPage(g)), LastPage(g, |o|)) == GroupDiff(o, r, g)
  {
    var next, end := first + |nos|, GroupEnd(o, g);
    assert FirstPage(g) == first && LastPage(g, |o|) == end - 1;
    AfterRange(first, nos);
    SuffixMissing(o, r, next, end);
    DiffSplit(o, r, first, next, end);
  }

  lemma AfterRange(first: nat, nos: seq<nat>)
    requires nos == Range(first, first + |nos|)
    ensures O.NextMissing(nos, first) == first + |nos|
  {
    if nos != [] {
      assert nos[|nos| - 1] in nos;
    }
  }

  /** A listed group starts inside the longer database, or everything is empty. */
  lemma ListedBounds(o: seq<Page>, r: seq<Page>, g: nat)
    requires Slice(o, g) != Slice(r, g) || (g == 0 && o == [])
    ensures g * GROUP_SIZE < |o| || g * GROUP_SIZE < |r| || (g == 0 && o == [] && r == [])
    ensures Covered(o, r, g) ==> g * GROUP_SIZE < |o| || (g == 0 && o == [] && r == [])
    ensures !Covered(o, r, g) ==> g * GROUP_SIZE < |r|
  {
    if g * GROUP_SIZE >= |o| && g * GROUP_SIZE >= |r| {
      assert |Slice(o, g)| == 0 && |Slice(r, g)| == 0;
    }
  }

  lemma {:induction false} ComparedPrefix(d: Digest, o: seq<Page>, r: seq<Page>, first: nat,
                                          nos: seq<nat>, hs: seq<Hash>, n: nat)
    requires 1 <= first && n <= |nos| == |hs| && first + n - 1 <= |o| && (n > 0 ==> first + n - 1 <= |r|)
    requires PagesSeparated(d, o, r)
    requires forall i :: 0 <= i < n ==> nos[i] == first + i && hs[i] == d(Blake3V2, r[first + i - 1])
    ensures O.InSnapshot(o, nos, n)
    ensures O.ChangedIn(d, Blake3V2, o, nos, hs, n) == Diff(o, r, first, first + n)
  {
    if n > 0 {
      ComparedPrefix(d, o, r, first, nos, hs, n - 1);
      assert nos[n - 1] == first + n - 1 && hs[n - 1] == d(Blake3V2, r[first + n - 2]);
      OnePage(d, o, r, first + n - 1, hs[n - 1], Diff(o, r, first, first + n - 1));
    }
  }

  lemma OnePage(d: Digest, o: seq<Page>, r: seq<Page>, p: nat, h: Hash, init: seq<PageData>)
    requires 1 <= p <= |o| && p <= |r| && PagesSeparated(d, o, r) && h == d(Blake3V2, r[p - 1])
    ensures (if d(Blake3V2, o[p - 1]) != h then init + [PageData(p, o[p - 1])] else init) ==
            init + if Differs(o, r, p) then [PageData(p, o[p - 1])] else []
  {
    PageDecided(d, o, r, p);
  }

  lemma PageDecided(d: Digest, o: seq<Page>, r: seq<Page>, p: nat)
    requires 1 <= p <= |o| && p <= |r| && PagesSeparated(d, o, r)
    ensures d(Blake3V2, o[p - 1]) != d(Blake3V2, r[p - 1]) <==> Differs(o, r, p)
  {
    assert PageSeparated(d, o, r, p - 1);
  }

  lemma {:induction false} SuffixMissing(o: seq<Page>, r: seq<Page>, lo: nat, hi: nat)
    requires 1 <= lo <= hi <= |o| + 1
    requires lo < hi ==> |r| < lo
    ensures O.PagesFrom(o, lo, hi - 1) == Diff(o, r, lo, hi)
    decreases hi
  {
    if lo < hi {
      SuffixMissing(o, r, lo, hi - 1);
      assert O.PagesFrom(o, lo, hi - 1) == O.PagesFrom(o, lo, hi - 2) + [PageData(hi - 1, o[hi - 2])];
    }
  }

  // ----- Putting the groups together -----

  /** Where the transfer stands once the first `k` listed groups are done. */
  function Frontier(o: seq<Page>, needFine: seq<nat>, k: nat): (p: nat)
    ensures 1 <= p <= |o| + 1
  {
    if k < |needFine| then GroupStart(o, needFine[k]) else |o| + 1
  }

  /** The list is increasing and leaves out no group that differs. */
  ghost predicate Complete(o: seq<Page>, r: seq<Page>, needFine: seq<nat>) {
    && (forall i, j :: 0 <= i < j < |needFine| ==> needFine[i] < needFine[j])
    && (forall g: nat :: MustList(o, r, needFine, g))
  }

  predicate MustList(o: seq<Page>, r: seq<Page>, needFine: seq<nat>, g: nat) {
    Slice(o, g) != Slice(r, g) ==> g in needFine
  }

  /** The list is increasing and lists exactly the groups that differ. */
  ghost predicate Exact(o: seq<Page>, r: seq<Page>, needFine: seq<nat>) {
    && (forall i, j :: 0 <= i < j < |needFine| ==> needFine[i] < needFine[j])
    && (forall g: nat :: ListedRight(o, r, needFine, g))
  }

  /** Group 0 of an empty origin is listed even if there is nothing in it. */
  predicate ListedRight(o: seq<Page>, r: seq<Page>, needFine: seq<nat>, g: nat) {
    g in needFine <==> Slice(o, g) != Slice(r, g) || (g == 0 && o == [])
  }

  /** Up to the page limit, an exact list for the whole origin is complete. */
  lemma ExactIsComplete(o: seq<Page>, r: seq<Page>, needFine: seq<nat>)
    requires Exact(o, r, needFine) && |r| <= PAGE_LIMIT
    ensures Complete(Reach(o), r, needFine)
  {
    forall g: nat ensures MustList(Reach(o), r, needFine, g) {
      assert ListedRight(o, r, needFine, g);
      if (g + 1) * GROUP_SIZE <= PAGE_LIMIT {
        SliceInReach(o, g);
      } else {
        assert |Slice(r, g)| == 0 && |Slice(Reach(o), g)| == 0;
      }
    }
  }

  predicate Listed(needFine: seq<nat>, p: nat)
    requires 1 <= p
  {
    (p - 1) / GROUP_SIZE in needFine
  }

  /** Pages outside listed groups do not differ. */
  lemma UnlistedSame(o: seq<Page>, r: seq<Page>, needFine: seq<nat>, p: nat)
    requires Complete(o, r, needFine) && 1 <= p <= |o| && !Listed(needFine, p)
    ensures !Differs(o, r, p)
  {
    var g := (p - 1) / GROUP_SIZE;
    var i := p - 1 - g * GROUP_SIZE;
    assert MustList(o, r, needFine, g);
    assert |Slice(o, g)| > i;
    assert Slice(o, g)[i] == o[p - 1] && Slice(r, g)[i] == r[p - 1];
  }

  lemma GapEmpty(o: seq<Page>, r: seq<Page>, needFine: seq<nat>, lo: nat, hi: nat)
    requires Complete(o, r, needFine) && 1 <= lo <= hi <= |o| + 1
    requires forall p :: lo <= p < hi ==> !Listed(needFine, p)
    ensures Diff(o, r, lo, hi) == []
  {
    forall p | lo <= p < hi ensures !Differs(o, r, p) {
      UnlistedSame(o, r, needFine, p);
    }
    DiffEmpty(o, r, lo, hi);
  }

  lemma NothingBeforeFirst(o: seq<Page>, r: seq<Page>, needFine: seq<nat>)
    requires Complete(o, r, needFine)
    ensures Diff(o, r, 1, Frontier(o, needFine, 0)) == []
  {
    forall p | 1 <= p < Frontier(o, needFine, 0) ensures !Listed(needFine, p) {
      assert |needFine| > 0 ==> (p - 1) / GROUP_SIZE < needFine[0];
    }
    GapEmpty(o, r, needFine, 1, Frontier(o, needFine, 0));
  }

  /** One listed group's transfer moves the frontier to the next listed group. */
  lemma FrontierStep(o: seq<Page>, r: seq<Page>, needFine: seq<nat>, k: nat)
    requires Complete(o, r, needFine) && k < |needFine|
    ensures Diff(o, r, 1, Frontier(o, needFine, k)) + GroupDiff(o, r, needFine[k]) ==
            Diff(o, r, 1, Frontier(o, needFine, k + 1))
  {
    var g := needFine[k];
    var lo, mid, hi := GroupStart(o, g), GroupEnd(o, g), Frontier(o, needFine, k + 1);
    assert mid <= hi by {
      if k + 1 < |needFine| {
        assert g + 1 <= needFine[k + 1];
      }
    }
    forall p | mid <= p < hi ensures !Listed(needFine, p) {
      BetweenListed(o, needFine, k, p);
    }
    GapEmpty(o, r, needFine, mid, hi);
    DiffSplit(o, r, 1, lo, mid);
    DiffSplit(o, r, 1, mid, hi);
  }

  lemma BetweenListed(o: seq<Page>, needFine: seq<nat>, k: nat, p: nat)
    requires forall i, j :: 0 <= i < j < |needFine| ==> needFine[i] < needFine[j]
    requires k < |needFine| && GroupEnd(o, needFine[k]) <= p < Frontier(o, needFine, k + 1)
    ensures !Listed(needFine, p)
  {
    var g := (p - 1) / GROUP_SIZE;
    assert needFine[k] < g;
    assert k + 1 < |needFine| ==> g < needFine[k + 1];
    if g in needFine {
      var i :| 0 <= i < |needFine| && needFine[i] == g;
      assert false;
    }
  }
}
