/** The origin's computations (src/protocol/origin.rs): what each one yields as a
    function, and the loops that compute it. */
module OriginSide {
  import opened Basics
  import opened Hashing
  import opened Protocol

  // ----- Coarse pass -----

  function Span(pages: seq<Page>, first: nat, last: nat): seq<Page> {
    if 1 <= first <= last <= |pages| then pages[first - 1..last] else []
  }

  function GroupHash(d: Digest, alg: Algorithm, pages: seq<Page>, g: nat): Hash {
    HashGroup(d, alg, HashPages(d, alg, Span(pages, FirstPage(g), LastPage(g, |pages|))))
  }

  predicate Flagged(d: Digest, alg: Algorithm, pages: seq<Page>, g: nat, h: Hash) {
    FirstPage(g) > |pages| || GroupHash(d, alg, pages, g) != h
  }

  /** The groups the comparison of the replica's hashes against the snapshot singles out. */
  function Mismatch(d: Digest, alg: Algorithm, pages: seq<Page>, hs: seq<Hash>): nat -> bool {
    (g: nat) => g < |hs| && Flagged(d, alg, pages, g, hs[g])
  }

  /** The numbers in `lo..hi` that satisfy `p`, in order. */
  function Select(p: nat -> bool, lo: nat, hi: nat): seq<nat>
    requires lo <= hi
    decreases hi
  {
    if lo == hi then [] else Select(p, lo, hi - 1) + if p(hi - 1) then [hi - 1] else []
  }

  /** Groups whose hash differs, then the groups only the origin has. */
  function NeedFine(d: Digest, alg: Algorithm, pages: seq<Page>, hs: seq<Hash>): seq<nat> {
    Select(Mismatch(d, alg, pages, hs), 0, |hs|) + Range(|hs|, GroupCount(|pages|))
  }

  lemma {:induction false} SelectSplit(p: nat -> bool, lo: nat, mid: nat, hi: nat)
    requires lo <= mid <= hi
    ensures Select(p, lo, hi) == Select(p, lo, mid) + Select(p, mid, hi)
    decreases hi
  {
    if mid < hi {
      SelectSplit(p, lo, mid, hi - 1);
    }
  }

  lemma {:induction false} SelectExact(p: nat -> bool, hi: nat)
    ensures var s := Select(p, 0, hi);
            && (forall i, j :: 0 <= i < j < |s| ==> s[i] < s[j])
            && (forall g: nat :: g in s <==> g < hi && p(g))
  {
    if hi > 0 {
      SelectExact(p, hi - 1);
      var init := Select(p, 0, hi - 1);
      forall i | 0 <= i < |init| ensures init[i] < hi - 1 {
        assert init[i] in init;
      }
    }
  }

  /** One chunk of the comparison, `p` being the closure run on each group. */
  method FilterGroups(p: nat -> bool, lo: nat, hi: nat) returns (chunk: seq<nat>)
    requires lo <= hi
    ensures chunk == Select(p, lo, hi)
  {
    chunk := [];
    for g := lo to hi
      invariant chunk == Select(p, lo, g)
    {
      if p(g) {
        chunk := chunk + [g];
      }
    }
  }

  method FilterInChunks(p: nat -> bool, n: nat, hashChunkGroups: nat) returns (found: seq<nat>)
    ensures found == Select(p, 0, n)
  {
    var groupsPerChunk := Max(hashChunkGroups, 1);
    found := [];
    var chunkStart := 0;
    while chunkStart < n
      invariant 0 <= chunkStart
      invariant found == Select(p, 0, Min(chunkStart, n))
    {
      var chunkEnd := Min(chunkStart + groupsPerChunk, n);
      var chunk := FilterGroups(p, chunkStart, chunkEnd);
      SelectSplit(p, 0, chunkStart, chunkEnd);
      found := found + chunk;
      chunkStart := chunkStart + groupsPerChunk;
    }
  }

  /** The chunked comparison finds the same groups for every chunk size, zero included. */
  method ComputeNeedFine(d: Digest, alg: Algorithm, pages: seq<Page>, hs: seq<Hash>, hashChunkGroups: nat)
    returns (needFine: seq<nat>)
    ensures needFine == NeedFine(d, alg, pages, hs)
  {
    needFine := FilterInChunks(Mismatch(d, alg, pages, hs), |hs|, hashChunkGroups);
    var originOnly := PushRange(|hs|, GroupCount(|pages|));
    needFine := needFine + originOnly;
  }

  method PushRange(lo: nat, hi: nat) returns (s: seq<nat>)
    ensures s == Range(lo, hi)
  {
    s := [];
    for g := lo to Max(lo, hi)
      invariant s == Range(lo, g)
    {
      s := s + [g];
    }
  }

  // ----- Fine pass -----

  /** What `validate_page_hashes_for_group` is for: the pages listed are the first few
      pages of the group, in order, none skipped. */
  predicate PrefixOfGroup(pageNos: seq<nat>, g: nat) {
    forall i :: 0 <= i < |pageNos| ==>
      && pageNos[i] == FirstPage(g) + i
      && pageNos[i] <= Wrap32((g + 1) * GROUP_SIZE)
  }

  method ValidatePageHashes(pageNos: seq<nat>, hashes: seq<Hash>, g: nat) returns (ok: bool)
    requires forall i :: 0 <= i < |pageNos| ==> pageNos[i] < U32_LIMIT
    ensures ok <==> |pageNos| == |hashes| && PrefixOfGroup(pageNos, g)
  {
    if |pageNos| != |hashes| {
      return false;
    }
    var firstPage := FirstPage(g);
    var groupLastPage := Wrap32((g + 1) * GROUP_SIZE);
    var seen: set<nat> := {};
    var prev: Option<nat> := None;
    for i := 0 to |pageNos|
      invariant seen == set j | 0 <= j < i :: pageNos[j]
      invariant prev == if i == 0 then None else Some(pageNos[i - 1])
      invariant forall j :: 0 <= j < i ==> firstPage <= pageNos[j] <= groupLastPage
      invariant forall j, k :: 0 <= j < k < i ==> pageNos[j] < pageNos[k]
    {
      var pageNo := pageNos[i];
      if pageNo == 0 {
        return false;
      }
      if pageNo < firstPage || pageNo > groupLastPage {
        return false;
      }
      if pageNo in seen {
        return false;
      }
      if prev.Some? && pageNo <= prev.value {
        assert pageNos[i - 1] == prev.value;
        return false;
      }
      seen := seen + {pageNo};
      prev := Some(pageNo);
    }
    for i := 0 to |pageNos|
      invariant forall j :: 0 <= j < i ==> pageNos[j] == firstPage + j
    {
      StrictlyIncreasingBelow(pageNos, firstPage, i);
      if pageNos[i] != Wrap32(firstPage + i) {
        return false;
      }
    }
    return true;
  }

  /** The first `n` page numbers listed exist in the snapshot. */
  predicate InSnapshot(pages: seq<Page>, pageNos: seq<nat>, n: nat)
    requires n <= |pageNos|
  {
    forall i :: 0 <= i < n ==> 1 <= pageNos[i] <= |pages|
  }

  /** The pages among the first `n` listed whose hash differs. */
  function ChangedIn(d: Digest, alg: Algorithm, pages: seq<Page>,
                     pageNos: seq<nat>, hashes: seq<Hash>, n: nat): seq<PageData>
    requires n <= |pageNos| == |hashes| && InSnapshot(pages, pageNos, n)
    decreases n
  {
    if n == 0 then []
    else
      var init, no := ChangedIn(d, alg, pages, pageNos, hashes, n - 1), pageNos[n - 1];
      if d(alg, pages[no - 1]) != hashes[n - 1] then init + [PageData(no, pages[no - 1])] else init
  }

  function MaxOf(pageNos: seq<nat>): (m: nat)
    requires pageNos != []
    ensures m in pageNos && forall p :: p in pageNos ==> p <= m
  {
    if |pageNos| == 1 then pageNos[0]
    else
      assert pageNos == pageNos[..|pageNos| - 1] + [pageNos[|pageNos| - 1]];
      Max(MaxOf(pageNos[..|pageNos| - 1]), pageNos[|pageNos| - 1])
  }

  /** Pages `lo..=hi` straight from the snapshot. */
  function PagesFrom(pages: seq<Page>, lo: nat, hi: nat): seq<PageData>
    requires 1 <= lo && (lo <= hi ==> hi <= |pages|)
  {
    seq(SaturatingSub(hi + 1, lo), i requires 0 <= i < SaturatingSub(hi + 1, lo) => PageData(lo + i, pages[lo + i - 1]))
  }

  function NextMissing(pageNos: seq<nat>, firstPage: nat): nat {
    if pageNos == [] then firstPage else MaxOf(pageNos) + 1
  }

  /** The pages sent for group `g`, or nothing when indexing the snapshot at the
      replica's page numbers runs past its end and the process panics. */
  function FinePages(d: Digest, alg: Algorithm, pages: seq<Page>, g: nat,
                     pageNos: seq<nat>, hashes: seq<Hash>): Option<seq<PageData>>
    requires |pageNos| == |hashes| && PrefixOfGroup(pageNos, g)
  {
    if InSnapshot(pages, pageNos, |pageNos|) then
      Some(ChangedIn(d, alg, pages, pageNos, hashes, |pageNos|) +
           PagesFrom(pages, NextMissing(pageNos, FirstPage(g)), LastPage(g, |pages|)))
    else
      None
  }

  method ComputeFinePages(d: Digest, alg: Algorithm, pages: seq<Page>, g: nat, pageNos: seq<nat>, hashes: seq<Hash>)
    returns (sent: Option<seq<PageData>>)
    requires |pageNos| == |hashes| && PrefixOfGroup(pageNos, g)
    ensures sent == FinePages(d, alg, pages, g, pageNos, hashes)
  {
    var changed := CollectChanged(d, alg, pages, pageNos, hashes);
    if changed.None? {
      return None;
    }
    var missing := CollectMissing(pages, NextMissing(pageNos, FirstPage(g)), LastPage(g, |pages|));
    return Some(changed.value + missing);
  }

  method CollectChanged(d: Digest, alg: Algorithm, pages: seq<Page>, pageNos: seq<nat>, hashes: seq<Hash>)
    returns (changed: Option<seq<PageData>>)
    requires |pageNos| == |hashes| && forall i :: 0 <= i < |pageNos| ==> 1 <= pageNos[i]
    ensures changed.Some? <==> InSnapshot(pages, pageNos, |pageNos|)
    ensures changed.Some? ==> changed.value == ChangedIn(d, alg, pages, pageNos, hashes, |pageNos|)
  {
    var collected: seq<PageData> := [];
    for i := 0 to |pageNos|
      invariant InSnapshot(pages, pageNos, i)
      invariant collected == ChangedIn(d, alg, pages, pageNos, hashes, i)
    {
      if pageNos[i] > |pages| {
        return None;
      }
      var data := pages[pageNos[i] - 1];
      if d(alg, data) != hashes[i] {
        collected := collected + [PageData(pageNos[i], data)];
      }
    }
    return Some(collected);
  }

  method CollectMissing(pages: seq<Page>, next: nat, last: nat) returns (missing: seq<PageData>)
    requires 1 <= next && last <= |pages|
    ensures missing == PagesFrom(pages, next, last)
  {
    missing := [];
    for p := next to Max(next, last + 1)
      invariant missing == PagesFrom(pages, next, p - 1)
    {
      missing := missing + [PageData(p, pages[p - 1])];
    }
  }

  method ValidatePagesAck(expected: seq<nat>, acked: seq<nat>) returns (ok: bool)
    ensures ok <==> NoDuplicates(acked) && ToSet(expected) == ToSet(acked)
  {
    DistinctSize(acked);
    if |acked| != |ToSet(acked)| {
      return false;
    }
    return ToSet(expected) == ToSet(acked);
  }

  /** For a duplicate-free list of sent pages, the accepted acknowledgements are exactly
      its permutations. */
  lemma AckIsPermutation(expected: seq<nat>, acked: seq<nat>)
    requires NoDuplicates(expected)
    ensures NoDuplicates(acked) && ToSet(expected) == ToSet(acked) <==> multiset(expected) == multiset(acked)
  {
    DistinctCounts(expected);
    if NoDuplicates(acked) && ToSet(expected) == ToSet(acked) {
      DistinctCounts(acked);
      forall x: nat ensures multiset(expected)[x] == multiset(acked)[x] {
        assert x in ToSet(expected) <==> x in ToSet(acked);
      }
      assert multiset(expected) == multiset(acked);
    }
    if multiset(expected) == multiset(acked) {
      forall x: nat ensures x in expected <==> x in acked {
        assert x in expected <==> multiset(expected)[x] > 0;
        assert x in acked <==> multiset(acked)[x] > 0;
      }
      assert ToSet(expected) == ToSet(acked);
      assert |multiset(expected)| == |multiset(acked)|;
      DistinctSize(expected);
      DistinctSize(acked);
    }
  }
}
