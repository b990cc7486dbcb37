/** Sessions that end before any page is asked for, and what each end refuses. */
module SyncRefused {
  import opened Basics
  import opened Hashing
  import opened Protocol
  import opened SyncSession
  import O = OriginSide
  import R = ReplicaSide

  // ----- Page sizes that differ -----

  /** Everything that can happen when both ends report different, nonzero page sizes. */
  predicate Refusing(e: Session, s: Joint) {
    && s.file == e.replicaPages && s.writes == []
    && s.rLog == (if s.r.RSendHello? then [] else [Hello(PROTOCOL_VERSION, e.replicaPageSize, |e.replicaPages|)])
    && s.oLog == (if s.o.OFailed? then [Error(PageSizeMismatch)] else [])
    && match s.r
       case RSendHello => s.o == OAwaitHello && s.rRead == 0 && s.oRead == 0
       case RAwaitHelloAck =>
         && s.oRead == 0
         && (if s.o == OAwaitHello then s.rRead == 0
             else s.rRead == 1 && (s.o == OSendError(PageSizeMismatch) || s.o == OFailed(PageSizeMismatch)))
       case RFailed(fault) =>
         fault == PageSizeMismatch && s.o == OFailed(PageSizeMismatch) && s.rRead == 1 && s.oRead == 1
       case _ => false
  }

  lemma {:induction false} RefusingRun(e: Session, schedule: seq<Actor>)
    requires e.originPageSize != e.replicaPageSize && e.replicaPageSize != 0
    ensures Refusing(e, Run(e, schedule))
  {
    if schedule != [] {
      RefusingRun(e, schedule[..|schedule| - 1]);
    }
  }

  /** Differing nonzero page sizes: both ends fail with that fault, in every run, and the
      replica file is untouched throughout. */
  lemma MismatchRefused(e: Session, schedule: seq<Actor>)
    requires e.originPageSize != e.replicaPageSize && e.replicaPageSize != 0
    ensures var s := Run(e, schedule);
            && s.file == e.replicaPages && s.writes == []
            && (Stopped(e, s) <==> s.o == OFailed(PageSizeMismatch) && s.r == RFailed(PageSizeMismatch))
            && (OFinished(s.o) && RFinished(s.r) <==> Stopped(e, s))
  {
    RefusingRun(e, schedule);
  }

  // ----- A replica beyond the page limit -----

  /** A replica beyond the limit panics while hashing its last group. */
  lemma GroupHashingPanics(d: Digest, alg: Algorithm, pages: seq<Page>)
    requires PAGE_LIMIT < |pages| < U32_LIMIT
    ensures ReplicaGroups(d, alg, pages).None?
  {
    var hs := HashPages(d, alg, pages);
    var n := R.NumGroups(|pages|);
    assert n * GROUP_SIZE == U32_LIMIT;
    assert LastPage(n - 1, |hs|) == 0;
    assert R.GroupSlice(hs, n - 1).None?;
  }

  lemma {:induction false} NeverPastHashing(e: Session, schedule: seq<Actor>)
    requires forall alg :: e.groupHashes(alg).None?
    ensures var s := Run(e, schedule);
            && s.file == e.replicaPages && s.writes == []
            && (s.r.RSendHello? || s.r.RAwaitHelloAck? || s.r.RPanicked? || s.r.RFailed? || s.r.RSendError?)
  {
    if schedule != [] {
      NeverPastHashing(e, schedule[..|schedule| - 1]);
    }
  }

  /** Beyond the limit a replica never returns Ok and never writes. */
  lemma OverLimitReplicaStops(c: Config, schedule: seq<Actor>)
    requires PAGE_LIMIT < |c.replica.pages| < U32_LIMIT
    ensures var s := Run(SessionOf(c), schedule);
            !s.r.ROk? && s.file == c.replica.pages && s.writes == []
  {
    var e := SessionOf(c);
    forall alg ensures e.groupHashes(alg).None? {
      GroupHashingPanics(c.digest, alg, c.replica.pages);
    }
    NeverPastHashing(e, schedule);
  }

  // ----- What each end accepts -----

  /** The version is negotiated down to what both know, and with it the hash: SHA-256 for
      version 1, BLAKE3 for version 2.  The replica's hashes follow the version it is told. */
  lemma Negotiation(c: Config, version: nat, pageSize: nat, pageCount: nat)
    ensures OriginReceive(SessionOf(c), OAwaitHello, Hello(version, pageSize, pageCount)) ==
            if version == 0 then OSendError(VersionZero)
            else if pageSize != 0 && pageSize != c.origin.pageSize then OSendError(PageSizeMismatch)
            else if version == 1 then OSendHelloAck(1, Sha256V1)
            else OSendHelloAck(2, Blake3V2)
    ensures var r := ReplicaReceive(SessionOf(c), RAwaitHelloAck, HelloAck(version, pageSize, pageCount));
            if version == 1 || version == 2 then
              var alg := if version == 1 then Sha256V1 else Blake3V2;
              r.RPanicked? || (r.RSendGroups? && r.hashes == HashPages(c.digest, alg, c.replica.pages))
            else r == RFailed(BadVersion)
  {
  }

  /** After sending pages the origin goes on only if exactly those are acknowledged, each
      once, in any order. */
  lemma OnlyFullAcknowledgement(c: Config, alg: Algorithm, needFine: seq<nat>, k: nat,
                                expected: seq<nat>, acked: seq<nat>)
    requires NoDuplicates(expected)
    ensures OriginReceive(SessionOf(c), OAwaitAck(alg, needFine, k, expected), PagesAck(acked)) ==
            if multiset(acked) != multiset(expected) then OSendError(BadAck)
            else if k + 1 < |needFine| then OAwaitHashes(alg, needFine, k + 1)
            else OSendDone
  {
    O.AckIsPermutation(expected, acked);
  }

  /** The message the origin waits for. */
  predicate Awaited(st: OState, msg: Message) {
    match st
    case OAwaitHello => msg.Hello?
    case OAwaitGroups(_) => msg.GroupHashes?
    case OAwaitHashes(_, _, _) => msg.PageHashes?
    case _ => msg.PagesAck?
  }

  /** Anything else ends the session: an error message without an answer, every other one
      with an error, as does a first group other than 0. */
  lemma OriginOffScript(c: Session, st: OState, msg: Message)
    requires OWaiting(st)
    ensures msg.Error? ==> OriginReceive(c, st, msg) == OFailed(msg.fault)
    ensures !msg.Error? && !Awaited(st, msg) ==>
              OriginReceive(c, st, msg) == OSendError(if st.OAwaitHashes? && msg.Done? then EarlyDone else Unexpected)
    ensures st.OAwaitGroups? && msg.GroupHashes? && msg.firstGroup != 0 ==>
              OriginReceive(c, st, msg) == OSendError(FirstGroupNotZero)
  {
  }

  /** So does the replica, except that pages may give way to `Done` on the last group, and
      that where only `Done` may come everything else, errors included, is answered with an
      error. */
  lemma ReplicaOffScript(c: Session, st: RState, msg: Message)
    requires RWaiting(st)
    ensures st.RAwaitEarlyDone? || st.RAwaitDone? ==>
              ReplicaReceive(c, st, msg) == if msg.Done? then ROk else RSendError(NoDone)
    ensures (st.RAwaitHelloAck? || st.RAwaitNeed? || st.RAwaitPages?) && msg.Error? ==>
              ReplicaReceive(c, st, msg) == RFailed(msg.fault)
    ensures (st.RAwaitHelloAck? && !msg.HelloAck?) || (st.RAwaitNeed? && !msg.GroupsNeedFine?)
            || (st.RAwaitPages? && !msg.SendPages? && !msg.Done?) ==>
              msg.Error? || ReplicaReceive(c, st, msg) == RSendError(Unexpected)
    ensures st.RAwaitPages? && msg.Done? ==>
              ReplicaReceive(c, st, msg) == if st.k + 1 < |st.needFine| then RSendError(EarlyDone) else ROk
  {
  }
}
