/** The replica's computations (src/protocol/replica.rs) and its file (src/db.rs). */
module ReplicaSide {
  import opened Basics
  import opened Hashing
  import opened Protocol

  // ----- Coarse pass -----

  /** The page hashes of group `g`, or nothing when the slice bounds are reversed (the
      group end has wrapped to zero) and indexing panics. */
  function GroupSlice(hs: seq<Hash>, g: nat): Option<seq<Hash>> {
    var start := FirstPage(g) - 1;
    var end := LastPage(g, |hs|);
    if start <= end then Some(hs[start..end]) else None
  }

  /** The hash of each group, or nothing where the slice panics. */
  function GroupHashes(d: Digest, alg: Algorithm, hs: seq<Hash>): nat -> Option<Hash> {
    (g: nat) => var slice := GroupSlice(hs, g); if slice.Some? then Some(HashGroup(d, alg, slice.value)) else None
  }

  /** The results of `f` on `lo..hi`, or nothing if one of them panics. */
  function Collect(f: nat -> Option<Hash>, lo: nat, hi: nat): Option<seq<Hash>>
    requires lo <= hi
    decreases hi
  {
    if lo == hi then Some([])
    else
      var init, last := Collect(f, lo, hi - 1), f(hi - 1);
      if init.Some? && last.Some? then Some(init.value + [last.value]) else None
  }

  /** An empty replica still reports one (empty) group. */
  function NumGroups(pageCount: nat): (n: nat)
    ensures 1 <= n && pageCount <= n * GROUP_SIZE
  {
    Max(GroupCount(pageCount), 1)
  }

  lemma {:induction false} CollectSplit(f: nat -> Option<Hash>, lo: nat, mid: nat, hi: nat)
    requires lo <= mid <= hi
    ensures var a, b := Collect(f, lo, mid), Collect(f, mid, hi);
            Collect(f, lo, hi) == if a.Some? && b.Some? then Some(a.value + b.value) else None
    decreases hi
  {
    var a := Collect(f, lo, mid);
    if mid < hi {
      CollectSplit(f, lo, mid, hi - 1);
      var b, last := Collect(f, mid, hi - 1), f(hi - 1);
      assert a.Some? && b.Some? && last.Some? ==>
        a.value + b.value + [last.value] == a.value + (b.value + [last.value]);
    } else {
      assert a.Some? ==> a.value + [] == a.value;
    }
  }

  lemma {:induction false} CollectExact(f: nat -> Option<Hash>, n: nat)
    requires forall g: nat :: g < n ==> f(g).Some?
    ensures var h := Collect(f, 0, n);
            h.Some? && |h.value| == n && forall g: nat :: g < n ==> h.value[g] == f(g).value
  {
    if n > 0 {
      CollectExact(f, n - 1);
    }
  }

  /** One chunk of group hashes, `f` being the closure run on each group. */
  method MapGroups(f: nat -> Option<Hash>, lo: nat, hi: nat) returns (chunk: Option<seq<Hash>>)
    requires lo <= hi
    ensures chunk == Collect(f, lo, hi)
  {
    chunk := Some([]);
    for g := lo to hi
      invariant chunk == Collect(f, lo, g)
    {
      var h := f(g);
      chunk := if chunk.Some? && h.Some? then Some(chunk.value + [h.value]) else None;
    }
  }

  method MapInChunks(f: nat -> Option<Hash>, n: nat, hashChunkGroups: nat) returns (all: Option<seq<Hash>>)
    ensures all == Collect(f, 0, n)
  {
    var groupsPerChunk := Max(hashChunkGroups, 1);
    var collected: seq<Hash> := [];
    var chunkStart := 0;
    while chunkStart < n
      invariant 0 <= chunkStart
      invariant Collect(f, 0, Min(chunkStart, n)) == Some(collected)
    {
      var chunkEnd := Min(chunkStart + groupsPerChunk, n);
      var chunk := MapGroups(f, chunkStart, chunkEnd);
      CollectSplit(f, 0, chunkStart, chunkEnd);
      CollectSplit(f, 0, chunkEnd, n);
      if chunk.None? {
        return None;
      }
      collected := collected + chunk.value;
      chunkStart := chunkStart + groupsPerChunk;
    }
    return Some(collected);
  }

  /** The chunked group hashing yields the same list for every chunk size. */
  method ComputeGroupHashes(d: Digest, alg: Algorithm, hs: seq<Hash>, hashChunkGroups: nat)
    returns (groupHashes: Option<seq<Hash>>)
    ensures groupHashes == Collect(GroupHashes(d, alg, hs), 0, NumGroups(|hs|))
  {
    groupHashes := MapInChunks(GroupHashes(d, alg, hs), NumGroups(|hs|), hashChunkGroups);
  }

  // ----- Fine pass -----

  /** Numbers of the replica's own pages in group `g`. */
  function GroupPageNos(pageCount: nat, g: nat): (s: seq<nat>)
    ensures forall i :: 0 <= i < |s| ==> 1 <= s[i] <= pageCount
  {
    if FirstPage(g) <= pageCount then Range(FirstPage(g), LastPage(g, pageCount) + 1) else []
  }

  function GroupPageHashes(hs: seq<Hash>, g: nat): (s: seq<Hash>)
    ensures |s| == |GroupPageNos(|hs|, g)|
  {
    var nos := GroupPageNos(|hs|, g);
    seq(|nos|, i requires 0 <= i < |nos| => hs[nos[i] - 1])
  }

  method ListGroup(hs: seq<Hash>, g: nat) returns (pageNos: seq<nat>, hashes: seq<Hash>)
    ensures pageNos == GroupPageNos(|hs|, g)
    ensures hashes == GroupPageHashes(hs, g)
  {
    var firstPage, lastPage := FirstPage(g), LastPage(g, |hs|);
    pageNos, hashes := [], [];
    if firstPage <= |hs| {
      for p := firstPage to Max(firstPage, lastPage + 1)
        invariant |hashes| == |pageNos| && pageNos == Range(firstPage, p)
        invariant forall i :: 0 <= i < |hashes| ==> 1 <= pageNos[i] <= |hs| && hashes[i] == hs[pageNos[i] - 1]
      {
        pageNos := pageNos + [p];
        hashes := hashes + [hs[p - 1]];
      }
    }
  }

  /** The file after writing `pages` in order, or nothing if a write is refused. */
  function Apply(file: seq<Page>, pageSize: nat, pages: seq<PageData>): Option<seq<Page>> {
    if pages == [] then Some(file)
    else
      var init := Apply(file, pageSize, pages[..|pages| - 1]);
      var last := pages[|pages| - 1];
      if init.None? then None else WritePage(init.value, pageSize, last.pageNo, last.data)
  }

  function PageNosOf(pages: seq<PageData>): (s: seq<nat>)
    ensures |s| == |pages| && forall i :: 0 <= i < |pages| ==> s[i] == pages[i].pageNo
  {
    seq(|pages|, i requires 0 <= i < |pages| => pages[i].pageNo)
  }

  /** Writing the batch stops at its `n`-th page, leaving `left` behind. */
  predicate StuckAt(file: seq<Page>, pageSize: nat, batch: seq<PageData>, n: nat, left: seq<Page>) {
    && n < |batch| && Apply(file, pageSize, batch[..n]) == Some(left)
    && WritePage(left, pageSize, batch[n].pageNo, batch[n].data).None?
  }

  /** The replica's database file, overwritten in place. */
  class ReplicaFile {
    const pageSize: nat
    var pages: seq<Page>

    constructor (pageSize: nat, pages: seq<Page>)
      ensures this.pageSize == pageSize && this.pages == pages
    {
      this.pageSize := pageSize;
      this.pages := pages;
    }

    method Write(pageNo: nat, data: Page) returns (ok: bool)
      modifies this
      ensures ok <==> WritePage(old(pages), pageSize, pageNo, data).Some?
      ensures pages == if ok then WritePage(old(pages), pageSize, pageNo, data).value else old(pages)
    {
      if pageNo == 0 || |data| != pageSize {
        return false;
      }
      if pageNo <= |pages| {
        pages := pages[pageNo - 1 := data];
      } else {
        pages := pages + seq(pageNo - 1 - |pages|, _ => ZeroPage(pageSize)) + [data];
      }
      return true;
    }

    /** Write a received batch page by page, stopping at the first refusal. */
    method WriteAll(batch: seq<PageData>) returns (acked: Option<seq<nat>>)
      modifies this
      ensures acked.Some? <==> Apply(old(pages), pageSize, batch).Some?
      ensures acked.Some? ==> acked.value == PageNosOf(batch) && Apply(old(pages), pageSize, batch) == Some(pages)
      ensures acked.None? ==> exists n :: StuckAt(old(pages), pageSize, batch, n, pages)
    {
      var nos: seq<nat> := [];
      for i := 0 to |batch|
        invariant Apply(old(pages), pageSize, batch[..i]) == Some(pages)
        invariant nos == PageNosOf(batch[..i])
      {
        assert batch[..i + 1][..i] == batch[..i];
        var ok := Write(batch[i].pageNo, batch[i].data);
        if !ok {
          ApplyStuck(old(pages), pageSize, batch, i + 1);
          assert StuckAt(old(pages), pageSize, batch, i, pages);
          return None;
        }
        nos := nos + [batch[i].pageNo];
      }
      assert batch[..|batch|] == batch;
      return Some(nos);
    }
  }

  lemma {:induction false} ApplyStuck(file: seq<Page>, pageSize: nat, pages: seq<PageData>, n: nat)
    requires n <= |pages| && Apply(file, pageSize, pages[..n]).None?
    ensures Apply(file, pageSize, pages).None?
  {
    if n < |pages| {
      assert pages[..|pages| - 1][..n] == pages[..n];
      ApplyStuck(file, pageSize, pages[..|pages| - 1], n);
    } else {
      assert pages[..n] == pages;
    }
  }
}
