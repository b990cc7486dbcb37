/** Messages, databases and the page-group arithmetic both ends share
    (src/protocol/messages.rs, src/hash.rs, src/db.rs). */
module Protocol {
  import opened Basics
  import opened Hashing

  const PROTOCOL_VERSION: nat := 2
  const GROUP_SIZE: nat := 64

  /** The largest page count whose group arithmetic stays inside `u32`. */
  const PAGE_LIMIT: nat := U32_LIMIT - GROUP_SIZE

  datatype PageData = PageData(pageNo: nat, data: Page)

  datatype Fault =
    | VersionZero
    | BadVersion
    | PageSizeMismatch
    | Unexpected
    | FirstGroupNotZero
    | BadPageHashes
    | EarlyDone
    | BadAck
    | NoDone
    | BadWrite
    | ConnectionClosed
    | FrameTooLarge

  datatype Message =
    | Hello(version: nat, pageSize: nat, pageCount: nat)
    | HelloAck(version: nat, pageSize: nat, pageCount: nat)
    | GroupHashes(firstGroup: nat, groupHashes: seq<Hash>)
    | GroupsNeedFine(groups: seq<nat>)
    | PageHashes(pageNos: seq<nat>, hashes: seq<Hash>)
    | SendPages(pages: seq<PageData>)
    | PagesAck(acked: seq<nat>)
    | Done
    | Error(fault: Fault)

  /** A database file: `page_count` pages of `page_size` bytes, both `u32`. */
  datatype Database = Database(pageSize: nat, pages: seq<Page>) {
    ghost predicate Valid() {
      && |pages| < U32_LIMIT
      && forall i :: 0 <= i < |pages| ==> |pages[i]| == pageSize
    }
  }

  /** 1-based number of the first page of group `g`, in `u32` arithmetic. */
  function FirstPage(g: nat): (p: nat)
    ensures 1 <= p
    ensures g * GROUP_SIZE + 1 < U32_LIMIT ==> p == g * GROUP_SIZE + 1
  {
    Wrap32(g * GROUP_SIZE + 1)
  }

  /** Number of the last page of group `g` among `count` pages, in `u32` arithmetic:
      the product wraps to zero for the very last group a `u32` can number. */
  function LastPage(g: nat, count: nat): (p: nat)
    ensures p <= count
    ensures (g + 1) * GROUP_SIZE < U32_LIMIT ==> p == Min((g + 1) * GROUP_SIZE, count)
  {
    Min(Wrap32((g + 1) * GROUP_SIZE), count)
  }

  /** `page_count.div_ceil(GROUP_SIZE)`. */
  function GroupCount(count: nat): (n: nat)
    ensures (n - 1) * GROUP_SIZE < count <= n * GROUP_SIZE || (count == 0 && n == 0)
  {
    (count + GROUP_SIZE - 1) / GROUP_SIZE
  }

  /** The pages of group `g`, as a value: no wrap-around, empty past the end. */
  function Slice<T>(xs: seq<T>, g: nat): (s: seq<T>)
    ensures |s| <= GROUP_SIZE
    ensures forall i :: 0 <= i < |s| ==> g * GROUP_SIZE + i < |xs| && s[i] == xs[g * GROUP_SIZE + i]
  {
    xs[Min(g * GROUP_SIZE, |xs|)..Min((g + 1) * GROUP_SIZE, |xs|)]
  }

  /** The pages the group arithmetic can number: all of them, up to the page limit. */
  function Reach(pages: seq<Page>): (s: seq<Page>)
    ensures |s| == Min(|pages|, PAGE_LIMIT) && s <= pages
  {
    if |pages| <= PAGE_LIMIT then pages else pages[..PAGE_LIMIT]
  }

  function ZeroPage(pageSize: nat): (p: Page)
    ensures |p| == pageSize
  {
    seq(pageSize, _ => 0)
  }

  /** The file after `write_page`: a seek past the end leaves zeroes behind. */
  function WritePage(file: seq<Page>, pageSize: nat, pageNo: nat, data: Page): Option<seq<Page>> {
    if pageNo == 0 || |data| != pageSize then
      None
    else if pageNo <= |file| then
      Some(file[pageNo - 1 := data])
    else
      Some(file + seq(pageNo - 1 - |file|, _ => ZeroPage(pageSize)) + [data])
  }

  /** Writing a page changes that page only; a write past the end leaves zero pages between;
      page 0 and data of another size are refused. */
  lemma WriteChangesOnePage(file: seq<Page>, pageSize: nat, pageNo: nat, data: Page)
    ensures var after := WritePage(file, pageSize, pageNo, data);
            && (after.None? <==> pageNo == 0 || |data| != pageSize)
            && (after.Some? ==>
                  && |after.value| == Max(|file|, pageNo)
                  && after.value[pageNo - 1] == data
                  && forall i :: 0 <= i < |after.value| && i != pageNo - 1 ==>
                       if i < |file| then after.value[i] == file[i]
                       else |after.value[i]| == pageSize && forall j :: 0 <= j < pageSize ==> after.value[i][j] == 0)
  {
  }
}
