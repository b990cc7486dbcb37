/** The code each end runs on a message, with its chunk size, is the state machine's step:
    tuning never shows on the wire. */
module SyncHandlers {
  import opened Basics
  import opened Hashing
  import opened Protocol
  import opened SyncSession
  import O = OriginSide
  import R = ReplicaSide

  method HandleGroups(c: Config, alg: Algorithm, hashChunkGroups: nat, msg: Message) returns (next: OState)
    ensures next == OriginReceive(SessionOf(c), OAwaitGroups(alg), msg)
  {
    match msg
    case GroupHashes(firstGroup, hs) =>
      if firstGroup != 0 {
        return OSendError(FirstGroupNotZero);
      }
      var needFine := O.ComputeNeedFine(c.digest, alg, c.origin.pages, hs, hashChunkGroups);
      return OSendNeed(alg, needFine);
    case Error(fault) => return OFailed(fault);
    case _ => return OSendError(Unexpected);
  }

  method HandlePageHashes(c: Config, alg: Algorithm, needFine: seq<nat>, k: nat, msg: Message) returns (next: OState)
    requires k < |needFine|
    requires msg.PageHashes? ==> forall i :: 0 <= i < |msg.pageNos| ==> msg.pageNos[i] < U32_LIMIT
    ensures next == OriginReceive(SessionOf(c), OAwaitHashes(alg, needFine, k), msg)
  {
    match msg
    case PageHashes(pageNos, hashes) =>
      var ok := O.ValidatePageHashes(pageNos, hashes, needFine[k]);
      if !ok {
        return OSendError(BadPageHashes);
      }
      var sent := O.ComputeFinePages(c.digest, alg, c.origin.pages, needFine[k], pageNos, hashes);
      if sent.None? {
        return OPanicked;
      }
      return OSendPages(alg, needFine, k, sent.value);
    case Done => return OSendError(EarlyDone);
    case Error(fault) => return OFailed(fault);
    case _ => return OSendError(Unexpected);
  }

  method HandleAck(c: Config, alg: Algorithm, needFine: seq<nat>, k: nat, expected: seq<nat>, msg: Message)
    returns (next: OState)
    ensures next == OriginReceive(SessionOf(c), OAwaitAck(alg, needFine, k, expected), msg)
  {
    match msg
    case PagesAck(acked) =>
      var ok := O.ValidatePagesAck(expected, acked);
      if !ok {
        return OSendError(BadAck);
      }
      return NextGroup(alg, needFine, k + 1);
    case Error(fault) => return OFailed(fault);
    case _ => return OSendError(Unexpected);
  }

  method HandleHelloAck(c: Config, hashChunkGroups: nat, msg: Message) returns (next: RState)
    ensures next == ReplicaReceive(SessionOf(c), RAwaitHelloAck, msg)
  {
    match msg
    case HelloAck(version, _, _) =>
      if version == 0 || version > PROTOCOL_VERSION {
        return RFailed(BadVersion);
      }
      var alg := FromProtocolVersion(version);
      if alg.None? {
        return RFailed(BadVersion);
      }
      var hs := HashPages(c.digest, alg.value, c.replica.pages);
      var groups := R.ComputeGroupHashes(c.digest, alg.value, hs, hashChunkGroups);
      if groups.None? {
        return RPanicked;
      }
      return RSendGroups(hs, groups.value);
    case Error(fault) => return RFailed(fault);
    case _ => return RSendError(Unexpected);
  }

  method SendHashes(c: Config, hs: seq<Hash>, needFine: seq<nat>, k: nat) returns (msg: Message)
    requires k < |needFine|
    ensures msg == ReplicaSend(SessionOf(c), RSendHashes(hs, needFine, k)).0
  {
    var pageNos, hashes := R.ListGroup(hs, needFine[k]);
    return PageHashes(pageNos, hashes);
  }

  /** The replica's write steps for one batch, up to the last page or the first refusal. */
  function WriteOut(e: Session, s: Joint): Joint
    decreases if s.r.RWriting? then |s.r.pages| - s.r.written else 0
  {
    if s.r.RWriting? && s.r.written < |s.r.pages| then WriteOut(e, ReplicaStep(e, s).value) else s
  }

  lemma WriteIsStep(e: Session, s: Joint)
    requires s.r.RWriting? && s.r.written < |s.r.pages|
    ensures ReplicaStep(e, s) == Some(ReplicaWrite(e, s))
  {
  }

  function Advanced(s: Joint, n: nat, file: seq<Page>): Joint
    requires s.r.RWriting? && n <= |s.r.pages|
  {
    s.(r := s.r.(written := n), file := file, writes := s.writes + s.r.pages[..n])
  }

  /** Writing the first `n` pages is the first `n` write steps. */
  lemma {:induction false} WriteOutAfter(c: Config, s: Joint, n: nat, file: seq<Page>)
    requires s.r.RWriting? && s.r.written == 0 && n <= |s.r.pages|
    requires R.Apply(s.file, c.replica.pageSize, s.r.pages[..n]) == Some(file)
    ensures WriteOut(SessionOf(c), s) == WriteOut(SessionOf(c), Advanced(s, n, file))
  {
    var pages := s.r.pages;
    if n == 0 {
      assert Advanced(s, 0, file) == s;
    } else {
      assert pages[..n][..n - 1] == pages[..n - 1];
      var before := R.Apply(s.file, c.replica.pageSize, pages[..n - 1]).value;
      WriteOutAfter(c, s, n - 1, before);
      assert s.writes + pages[..n - 1] + [pages[n - 1]] == s.writes + pages[..n];
      assert ReplicaWrite(SessionOf(c), Advanced(s, n - 1, before)) == Advanced(s, n, file);
      WriteIsStep(SessionOf(c), Advanced(s, n - 1, before));
    }
  }

  /** Writing a received batch into the file is the replica's write steps: the same file
      results, and either the batch is acknowledged in full or the replica has failed. */
  method HandleSendPages(c: Config, file: R.ReplicaFile, ghost s: Joint, pages: seq<PageData>)
    returns (acked: Option<seq<nat>>)
    requires s.r.RWriting? && s.r.pages == pages && s.r.written == 0
    requires file.pageSize == c.replica.pageSize && file.pages == s.file
    modifies file
    ensures var t := WriteOut(SessionOf(c), s);
            && file.pages == t.file
            && (acked.None? ==> t.r == RFailed(BadWrite))
            && (acked.Some? ==> RSending(t.r) && ReplicaSend(SessionOf(c), t.r).0 == PagesAck(acked.value))
  {
    acked := file.WriteAll(pages);
    if acked.Some? {
      assert pages[..|pages|] == pages;
      WriteOutAfter(c, s, |pages|, file.pages);
    } else {
      ghost var n :| R.StuckAt(s.file, c.replica.pageSize, pages, n, file.pages);
      WriteOutAfter(c, s, n, file.pages);
    }
  }
}
