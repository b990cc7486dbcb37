/** What every reachable state of an honest session satisfies. */
module SyncInvariant {
  import opened Basics
  import opened Hashing
  import opened Protocol
  import opened SyncSession
  import R = ReplicaSide

  /** The data that fixes a session: the replica's hashes, the groups the origin asks
      for, the pages it sends for each, whether indexing the snapshot succeeds there, and
      the two message sequences. */
  datatype Plan = Plan(
    hashes: seq<Hash>,
    groupHashes: seq<Hash>,
    needFine: seq<nat>,
    batches: seq<seq<PageData>>,
    inRange: seq<bool>,
    oMsgs: seq<Message>,
    rMsgs: seq<Message>)
  {
    function N(): nat { |needFine| }

    predicate Sized() {
      |batches| == |inRange| == N() && |oMsgs| == 3 + N() && |rMsgs| == 2 + 2 * N()
    }
  }

  /** The transport accepts every message of the plan. */
  ghost predicate Carried(c: Session, p: Plan) {
    forall i: nat :: CarriedAt(c, p, i)
  }

  /** The `i`-th message of either end. */
  predicate CarriedAt(c: Session, p: Plan, i: nat) {
    && (i < |p.oMsgs| ==> Delivered(c, p.oMsgs[i]))
    && (i < |p.rMsgs| ==> Delivered(c, p.rMsgs[i]))
  }

  lemma AllCarried(c: Session, p: Plan)
    requires forall msg :: c.fits(msg)
    ensures Carried(c, p)
  {
    assert forall i: nat :: CarriedAt(c, p, i);
  }

  /** The plan is what the two ends compute from each other's messages. */
  ghost predicate Fits(c: Session, p: Plan) {
    && p.Sized() && Carried(c, p)
    && p.rMsgs[0] == Hello(PROTOCOL_VERSION, c.replicaPageSize, |c.replicaPages|)
    && p.rMsgs[1] == GroupHashes(0, p.groupHashes)
    && p.oMsgs[0] == HelloAck(PROTOCOL_VERSION, c.originPageSize, c.originPageCount)
    && p.oMsgs[1] == GroupsNeedFine(p.needFine)
    && p.oMsgs[2 + p.N()] == Done
    && (c.originPageSize == c.replicaPageSize || c.replicaPageSize == 0)
    && c.groupHashes(Blake3V2) == Some(p.groupHashes) && c.pageHashes(Blake3V2) == p.hashes
    && c.needFine(Blake3V2, p.groupHashes) == p.needFine
    && forall k :: 0 <= k < p.N() ==> FineFits(c, p, k)
  }

  ghost predicate FineFits(c: Session, p: Plan, k: nat)
    requires p.Sized() && k < p.N()
  {
    var g := p.needFine[k];
    var (nos, hs) := c.listing(p.hashes, g);
    var acked := R.PageNosOf(p.batches[k]);
    && p.rMsgs[2 + 2 * k] == PageHashes(nos, hs)
    && p.rMsgs[3 + 2 * k] == PagesAck(acked)
    && p.oMsgs[2 + k] == SendPages(p.batches[k])
    && c.finePages(Blake3V2, g, nos, hs) == (if p.inRange[k] then Reply(p.batches[k]) else Panic)
    && c.ackMatches(acked, acked)
    && forall i, file :: 0 <= i < |p.batches[k]| ==> c.write(file, p.batches[k][i]).Some?
  }

  /** The pages of the first `k` batches. */
  function Flat(batches: seq<seq<PageData>>, k: nat): seq<PageData>
    requires k <= |batches|
  {
    if k == 0 then [] else Flat(batches, k - 1) + batches[k - 1]
  }

  /** The file after writing `pages` in order. */
  function Written(c: Session, pages: seq<PageData>): Option<seq<Page>> {
    if pages == [] then Some(c.replicaPages)
    else
      var init := Written(c, pages[..|pages| - 1]);
      if init.None? then None else c.write(init.value, pages[|pages| - 1])
  }

  predicate Passed(p: Plan, k: nat)
    requires k <= |p.inRange|
  {
    forall i :: 0 <= i < k ==> p.inRange[i]
  }

  /** Each end has sent a prefix of its message sequence. */
  predicate Logs(p: Plan, s: Joint) {
    && s.oRead <= |s.oLog| && s.oLog <= p.oMsgs
    && s.rRead <= |s.rLog| && s.rLog <= p.rMsgs
  }

  /** The origin's local position agrees with how much it has received and sent. */
  predicate OriginAt(p: Plan, s: Joint)
    requires p.Sized()
  {
    var received, sent := s.rRead, |s.oLog|;
    match s.o
    case OAwaitHello => received == 0 && sent == 0
    case OSendHelloAck(version, alg) => version == PROTOCOL_VERSION && alg == Blake3V2 && received == 1 && sent == 0
    case OAwaitGroups(alg) => alg == Blake3V2 && received == 1 && sent == 1
    case OSendNeed(alg, needFine) => alg == Blake3V2 && needFine == p.needFine && received == 2 && sent == 1
    case OAwaitHashes(alg, needFine, k) =>
      && alg == Blake3V2 && needFine == p.needFine && k < p.N()
      && received == 2 + 2 * k && sent == 2 + k && Passed(p, k)
    case OSendPages(alg, needFine, k, pages) =>
      && alg == Blake3V2 && needFine == p.needFine && k < p.N() && pages == p.batches[k]
      && received == 3 + 2 * k && sent == 2 + k && Passed(p, k + 1)
    case OAwaitAck(alg, needFine, k, expected) =>
      && alg == Blake3V2 && needFine == p.needFine && k < p.N() && expected == R.PageNosOf(p.batches[k])
      && received == 3 + 2 * k && sent == 3 + k && Passed(p, k + 1)
    case OSendDone => received == 2 + 2 * p.N() && sent == 2 + p.N() && Passed(p, p.N())
    case OOk => received == 2 + 2 * p.N() && sent == 3 + p.N() && Passed(p, p.N())
    case OPanicked =>
      && 2 <= sent < 2 + p.N() && received == 2 * sent - 1
      && !p.inRange[sent - 2] && Passed(p, sent - 2)
    case _ => false
  }

  /** The replica's local position, and what it has written by then. */
  predicate ReplicaAt(p: Plan, s: Joint)
    requires p.Sized()
  {
    var received, sent := s.oRead, |s.rLog|;
    match s.r
    case RSendHello => received == 0 && sent == 0 && s.writes == []
    case RAwaitHelloAck => received == 0 && sent == 1 && s.writes == []
    case RSendGroups(hs, groupHashes) =>
      hs == p.hashes && groupHashes == p.groupHashes && received == 1 && sent == 1 && s.writes == []
    case RAwaitNeed(hs) => hs == p.hashes && received == 1 && sent == 2 && s.writes == []
    case RAwaitEarlyDone => p.N() == 0 && received == 2 && sent == 2 && s.writes == []
    case RSendHashes(hs, needFine, k) =>
      && hs == p.hashes && needFine == p.needFine && k < p.N()
      && received == 2 + k && sent == 2 + 2 * k && s.writes == Flat(p.batches, k)
    case RAwaitPages(hs, needFine, k) =>
      && hs == p.hashes && needFine == p.needFine && k < p.N()
      && received == 2 + k && sent == 3 + 2 * k && s.writes == Flat(p.batches, k)
    case RWriting(hs, needFine, k, pages, written) =>
      && hs == p.hashes && needFine == p.needFine && k < p.N() && pages == p.batches[k] && written <= |pages|
      && received == 3 + k && sent == 3 + 2 * k && s.writes == Flat(p.batches, k) + pages[..written]
    case RAwaitDone =>
      p.N() > 0 && received == 2 + p.N() && sent == 2 + 2 * p.N() && s.writes == Flat(p.batches, p.N())
    case ROk => received == 3 + p.N() && sent == 2 + 2 * p.N() && s.writes == Flat(p.batches, p.N())
    case RFailed(fault) =>
      && fault == ConnectionClosed && s.o.OPanicked?
      && received == |s.oLog| && 2 <= received <= 2 + p.N() && sent == s.rRead
      && s.writes == Flat(p.batches, received - 2)
    case _ => false
  }

  ghost predicate Inv(c: Session, p: Plan, s: Joint) {
    && p.Sized()
    && Logs(p, s)
    && OriginAt(p, s)
    && ReplicaAt(p, s)
    && Written(c, s.writes) == Some(s.file)
  }

  lemma StartInv(c: Session, p: Plan)
    requires Fits(c, p)
    ensures Inv(c, p, Start(c))
  {
  }

  /** How the origin takes each honest message. */
  lemma OriginTakesHello(c: Session, p: Plan, s: Joint)
    requires Fits(c, p) && OriginAt(p, s) && s.o.OAwaitHello?
    ensures OriginAt(p, s.(o := OriginReceive(c, s.o, p.rMsgs[s.rRead]), rRead := s.rRead + 1))
  {
  }

  lemma OriginTakesGroups(c: Session, p: Plan, s: Joint)
    requires Fits(c, p) && OriginAt(p, s) && s.o.OAwaitGroups?
    ensures OriginAt(p, s.(o := OriginReceive(c, s.o, p.rMsgs[s.rRead]), rRead := s.rRead + 1))
  {
  }

  lemma OriginTakesHashes(c: Session, p: Plan, s: Joint)
    requires Fits(c, p) && OriginAt(p, s) && s.o.OAwaitHashes?
    ensures OriginAt(p, s.(o := OriginReceive(c, s.o, p.rMsgs[s.rRead]), rRead := s.rRead + 1))
  {
    assert FineFits(c, p, s.o.k);
  }

  lemma OriginTakesAck(c: Session, p: Plan, s: Joint)
    requires Fits(c, p) && OriginAt(p, s) && s.o.OAwaitAck?
    ensures OriginAt(p, s.(o := OriginReceive(c, s.o, p.rMsgs[s.rRead]), rRead := s.rRead + 1))
  {
    assert FineFits(c, p, s.o.k);
  }

  lemma OriginTakes(c: Session, p: Plan, s: Joint)
    requires Fits(c, p) && OriginAt(p, s) && OWaiting(s.o)
    ensures s.rRead < |p.rMsgs|
    ensures OriginAt(p, s.(o := OriginReceive(c, s.o, p.rMsgs[s.rRead]), rRead := s.rRead + 1))
  {
    match s.o {
      case OAwaitHello => OriginTakesHello(c, p, s);
      case OAwaitGroups(_) => OriginTakesGroups(c, p, s);
      case OAwaitHashes(_, _, _) => OriginTakesHashes(c, p, s);
      case OAwaitAck(_, _, _, _) => OriginTakesAck(c, p, s);
    }
  }

  lemma OriginReceivesHonest(c: Session, p: Plan, s: Joint, t: Joint)
    requires Fits(c, p) && OriginAt(p, s) && Logs(p, s)
    requires OWaiting(s.o) && s.rRead < |s.rLog| && OriginStep(c, s) == Some(t)
    ensures t == s.(o := t.o, rRead := t.rRead) && OriginAt(p, t) && Logs(p, t)
  {
    assert s.rLog[s.rRead] == p.rMsgs[s.rRead] && CarriedAt(c, p, s.rRead);
    OriginTakes(c, p, s);
  }

  /** A step of the origin that reads or sends a message leaves the replica's side alone. */
  lemma OriginMoved(c: Session, p: Plan, s: Joint, t: Joint)
    requires Inv(c, p, s) && !s.r.RFailed? && OriginAt(p, t) && Logs(p, t)
    requires t == s.(o := t.o, rRead := t.rRead, oLog := t.oLog)
    ensures Inv(c, p, t)
  {
  }

  lemma OriginSays(c: Session, p: Plan, s: Joint)
    requires Fits(c, p) && OriginAt(p, s) && OSending(s.o)
    ensures |s.oLog| < |p.oMsgs| && OriginSend(c, s.o).0 == p.oMsgs[|s.oLog|]
    ensures OriginAt(p, s.(o := OriginSend(c, s.o).1, oLog := s.oLog + [p.oMsgs[|s.oLog|]]))
  {
    if s.o.OSendPages? {
      assert FineFits(c, p, s.o.k);
    }
  }

  lemma OriginSendsHonest(c: Session, p: Plan, s: Joint, t: Joint)
    requires Fits(c, p) && OriginAt(p, s) && Logs(p, s) && OSending(s.o) && OriginStep(c, s) == Some(t)
    ensures t == s.(o := t.o, oLog := t.oLog) && OriginAt(p, t) && Logs(p, t)
  {
    OriginSays(c, p, s);
  }

  /** While the replica waits on an empty channel, the origin has not returned unless it
      panicked; and the origin never finds the replica gone. */
  lemma NoEarlyClose(c: Session, p: Plan, s: Joint)
    requires Fits(c, p) && Inv(c, p, s)
    ensures OWaiting(s.o) && s.rRead == |s.rLog| ==> !RFinished(s.r)
    ensures RWaiting(s.r) && s.oRead == |s.oLog| && OFinished(s.o) ==> s.o.OPanicked? && s.r.RAwaitPages?
  {
  }

  /** How the replica takes each honest message. */
  lemma ReplicaTakes(c: Session, p: Plan, s: Joint)
    requires Fits(c, p) && ReplicaAt(p, s) && RWaiting(s.r) && s.oRead < 3 + p.N()
    ensures ReplicaAt(p, s.(r := ReplicaReceive(c, s.r, p.oMsgs[s.oRead]), oRead := s.oRead + 1))
    ensures !ReplicaReceive(c, s.r, p.oMsgs[s.oRead]).RFailed?
  {
    if s.r.RAwaitPages? {
      assert FineFits(c, p, s.r.k);
    }
  }

  lemma ReplicaReceivesHonest(c: Session, p: Plan, s: Joint, t: Joint)
    requires Fits(c, p) && ReplicaAt(p, s) && Logs(p, s)
    requires RWaiting(s.r) && s.oRead < |s.oLog| && ReplicaStep(c, s) == Some(t)
    ensures t == s.(r := t.r, oRead := t.oRead) && ReplicaAt(p, t) && Logs(p, t)
  {
    assert s.oLog[s.oRead] == p.oMsgs[s.oRead] && CarriedAt(c, p, s.oRead);
    ReplicaTakes(c, p, s);
  }

  lemma ReplicaSays(c: Session, p: Plan, k: nat)
    requires Fits(c, p) && k < p.N()
    ensures ReplicaSend(c, RSendHashes(p.hashes, p.needFine, k)).0 == p.rMsgs[2 + 2 * k]
    ensures ReplicaSend(c, RWriting(p.hashes, p.needFine, k, p.batches[k], |p.batches[k]|)).0 == p.rMsgs[3 + 2 * k]
  {
    assert FineFits(c, p, k);
  }

  lemma ReplicaSpeaks(c: Session, p: Plan, s: Joint, t: Joint)
    requires Fits(c, p) && ReplicaAt(p, s) && RSending(s.r)
    requires t == s.(r := ReplicaSend(c, s.r).1, rLog := s.rLog + [ReplicaSend(c, s.r).0])
    ensures |s.rLog| < 2 + 2 * p.N() && t.rLog[|s.rLog|] == p.rMsgs[|s.rLog|]
    ensures ReplicaAt(p, t)
  {
    match s.r
    case RSendHello =>
    case RSendGroups(_, _) =>
    case RSendHashes(_, _, k) => ReplicaSays(c, p, k);
    case RWriting(_, _, k, pages, written) =>
      ReplicaSays(c, p, k);
      assert pages[..written] == pages;
  }

  lemma ReplicaSendsHonest(c: Session, p: Plan, s: Joint, t: Joint)
    requires Fits(c, p) && ReplicaAt(p, s) && Logs(p, s) && RSending(s.r) && ReplicaStep(c, s) == Some(t)
    ensures t == s.(r := t.r, rLog := t.rLog) && ReplicaAt(p, t) && Logs(p, t)
  {
    ReplicaSpeaks(c, p, s, t);
  }

  /** A step of the replica that reads or sends a message leaves the origin's side alone. */
  lemma ReplicaMoved(c: Session, p: Plan, s: Joint, t: Joint)
    requires Inv(c, p, s) && ReplicaAt(p, t) && Logs(p, t)
    requires t == s.(r := t.r, rLog := t.rLog, oRead := t.oRead)
    ensures Inv(c, p, t)
  {
  }

  lemma ReplicaWritesHonest(c: Session, p: Plan, s: Joint, t: Joint)
    requires Fits(c, p) && Inv(c, p, s) && s.r.RWriting? && s.r.written < |s.r.pages| && ReplicaStep(c, s) == Some(t)
    ensures Inv(c, p, t)
  {
    assert FineFits(c, p, s.r.k);
    PageWritten(c, p, s, t);
    FileMoved(c, p, s, t);
  }

  lemma PageWritten(c: Session, p: Plan, s: Joint, t: Joint)
    requires p.Sized() && ReplicaAt(p, s) && Written(c, s.writes) == Some(s.file)
    requires s.r.RWriting? && s.r.written < |s.r.pages| && c.write(s.file, s.r.pages[s.r.written]).Some?
    requires t == ReplicaWrite(c, s)
    ensures ReplicaAt(p, t) && Written(c, t.writes) == Some(t.file)
  {
    var page := s.r.pages[s.r.written];
    assert t.writes[..|t.writes| - 1] == s.writes;
    assert s.r.pages[..s.r.written + 1] == s.r.pages[..s.r.written] + [page];
    assert t.writes == Flat(p.batches, s.r.k) + s.r.pages[..s.r.written + 1];
  }

  /** A write leaves both logs and the origin alone. */
  lemma FileMoved(c: Session, p: Plan, s: Joint, t: Joint)
    requires Inv(c, p, s) && ReplicaAt(p, t) && Written(c, t.writes) == Some(t.file)
    requires t == s.(r := t.r, file := t.file, writes := t.writes)
    ensures Inv(c, p, t)
  {
  }

  // ----- Whole runs -----

  lemma OriginHonest(c: Session, p: Plan, s: Joint, t: Joint)
    requires Fits(c, p) && OriginAt(p, s) && Logs(p, s) && OriginStep(c, s) == Some(t)
    requires OWaiting(s.o) && s.rRead == |s.rLog| ==> !RFinished(s.r)
    ensures t == s.(o := t.o, rRead := t.rRead, oLog := t.oLog) && OriginAt(p, t) && Logs(p, t)
  {
    if OWaiting(s.o) {
      OriginReceivesHonest(c, p, s, t);
    } else {
      OriginSendsHonest(c, p, s, t);
    }
  }

  lemma OriginStepInv(c: Session, p: Plan, s: Joint, t: Joint)
    requires Fits(c, p) && Inv(c, p, s) && OriginStep(c, s) == Some(t)
    ensures Inv(c, p, t)
  {
    ReplicaAlive(c, p, s);
    OriginHonest(c, p, s, t);
    OriginMoved(c, p, s, t);
  }

  /** While the origin can move, the replica has not failed or left it waiting. */
  lemma ReplicaAlive(c: Session, p: Plan, s: Joint)
    requires p.Sized() && Logs(p, s) && OriginAt(p, s) && ReplicaAt(p, s) && !OFinished(s.o)
    ensures !s.r.RFailed? && (OWaiting(s.o) && s.rRead == |s.rLog| ==> !RFinished(s.r))
  {
  }

  lemma ReplicaHonest(c: Session, p: Plan, s: Joint, t: Joint)
    requires Fits(c, p) && ReplicaAt(p, s) && Logs(p, s) && ReplicaStep(c, s) == Some(t)
    requires RWaiting(s.r) || RSending(s.r)
    requires RWaiting(s.r) ==> s.oRead < |s.oLog|
    ensures t == s.(r := t.r, rLog := t.rLog, oRead := t.oRead) && ReplicaAt(p, t) && Logs(p, t)
  {
    if RWaiting(s.r) {
      ReplicaReceivesHonest(c, p, s, t);
    } else {
      ReplicaSendsHonest(c, p, s, t);
    }
  }

  /** The replica notices that the origin has panicked. */
  lemma ReplicaCutOff(c: Session, p: Plan, s: Joint, t: Joint)
    requires Fits(c, p) && Inv(c, p, s) && RWaiting(s.r) && s.oRead == |s.oLog| && ReplicaStep(c, s) == Some(t)
    ensures t == s.(r := t.r) && ReplicaAt(p, t)
  {
    NoEarlyClose(c, p, s);
  }

  lemma ReplicaStepInv(c: Session, p: Plan, s: Joint, t: Joint)
    requires Fits(c, p) && Inv(c, p, s) && ReplicaStep(c, s) == Some(t)
    ensures Inv(c, p, t)
  {
    if s.r.RWriting? && s.r.written < |s.r.pages| {
      ReplicaWritesHonest(c, p, s, t);
    } else {
      if RWaiting(s.r) && s.oRead == |s.oLog| {
        ReplicaCutOff(c, p, s, t);
      } else {
        ReplicaHonest(c, p, s, t);
      }
      ReplicaMoved(c, p, s, t);
    }
  }

  lemma StepInv(c: Session, p: Plan, s: Joint, actor: Actor, t: Joint)
    requires Fits(c, p) && Inv(c, p, s) && Step(c, s, actor) == Some(t)
    ensures Inv(c, p, t)
  {
    if actor.TheOrigin? {
      OriginStepInv(c, p, s, t);
    } else {
      ReplicaStepInv(c, p, s, t);
    }
  }

  lemma {:induction false} RunInv(c: Session, p: Plan, schedule: seq<Actor>)
    requires Fits(c, p)
    ensures Inv(c, p, Run(c, schedule))
  {
    if schedule == [] {
      StartInv(c, p);
    } else {
      var init, last := schedule[..|schedule| - 1], schedule[|schedule| - 1];
      RunInv(c, p, init);
      if Step(c, Run(c, init), last).Some? {
        StepInv(c, p, Run(c, init), last, Run(c, schedule));
      }
    }
  }

  /** Where a session ends: both ends Ok with every batch written, or, exactly when some
      batch cannot be computed, the origin panicked and the replica cut off. */
  lemma StoppedOutcome(c: Session, p: Plan, s: Joint)
    requires Fits(c, p) && Inv(c, p, s) && Stopped(c, s)
    ensures Passed(p, p.N()) ==> s.o.OOk? && s.r.ROk? && s.writes == Flat(p.batches, p.N())
    ensures !Passed(p, p.N()) ==> s.o.OPanicked? && s.r == RFailed(ConnectionClosed)
  {
    NoEarlyClose(c, p, s);
  }

  /** No deadlock: while an end has not returned, one of the two can move. */
  lemma NoDeadlock(c: Session, p: Plan, s: Joint)
    requires Fits(c, p) && Inv(c, p, s)
    ensures Stopped(c, s) <==> OFinished(s.o) && RFinished(s.r)
  {
    if Stopped(c, s) {
      StoppedOutcome(c, p, s);
    }
  }

  lemma AtMostTwoInFlight(c: Session, p: Plan, s: Joint)
    requires Inv(c, p, s)
    ensures |s.oLog| - s.oRead + |s.rLog| - s.rRead <= 2
  {
  }

  /** Receives, sends and page writes done so far, and noticing that the peer is gone. */
  function Work(s: Joint): nat {
    |s.oLog| + s.oRead + |s.rLog| + s.rRead + |s.writes| + if s.r.RFailed? then 1 else 0
  }

  lemma OriginWork(c: Session, p: Plan, s: Joint)
    requires Fits(c, p) && Inv(c, p, s) && OriginStep(c, s).Some?
    ensures Work(OriginStep(c, s).value) == Work(s) + 1
  {
    NoEarlyClose(c, p, s);
  }

  lemma ReplicaWork(c: Session, p: Plan, s: Joint)
    requires Fits(c, p) && Inv(c, p, s) && ReplicaStep(c, s).Some?
    ensures Work(ReplicaStep(c, s).value) == Work(s) + 1
  {
    if RWaiting(s.r) {
      if s.oRead < |s.oLog| {
        assert s.oLog[s.oRead] == p.oMsgs[s.oRead] && CarriedAt(c, p, s.oRead);
        ReplicaTakes(c, p, s);
      }
    } else if RSending(s.r) {
      SendKeepsOpen(c, p, s);
    } else {
      assert FineFits(c, p, s.r.k);
    }
  }

  lemma SendKeepsOpen(c: Session, p: Plan, s: Joint)
    requires p.Sized() && ReplicaAt(p, s) && RSending(s.r)
    ensures !ReplicaSend(c, s.r).1.RFailed?
  {
  }

  /** Every step does exactly one of those. */
  lemma WorkGrows(c: Session, p: Plan, s: Joint, actor: Actor)
    requires Fits(c, p) && Inv(c, p, s) && Step(c, s, actor).Some?
    ensures Work(Step(c, s, actor).value) == Work(s) + 1
  {
    if actor.TheOrigin? {
      OriginWork(c, p, s);
    } else {
      ReplicaWork(c, p, s);
    }
  }

  /** The work of a complete session, and a bound on that of any prefix. */
  lemma WorkBound(c: Session, p: Plan, s: Joint)
    requires Inv(c, p, s)
    ensures Work(s) <= 10 + 6 * p.N() + |Flat(p.batches, p.N())|
    ensures s.o.OOk? && s.r.ROk? <==> Work(s) == 10 + 6 * p.N() + |Flat(p.batches, p.N())|
  {
    WritesArePrefix(c, p, s);
  }

  /** From any point of a run, some continuation brings the session to its end. */
  lemma {:induction false} Completes(c: Session, p: Plan, schedule: seq<Actor>) returns (more: seq<Actor>)
    requires Fits(c, p)
    ensures schedule <= more && Stopped(c, Run(c, more))
    decreases 11 + 6 * p.N() + |Flat(p.batches, p.N())| - Work(Run(c, schedule))
  {
    var s := Run(c, schedule);
    RunInv(c, p, schedule);
    WorkBound(c, p, s);
    if Stopped(c, s) {
      more := schedule;
    } else {
      var actor := if OriginStep(c, s).Some? then TheOrigin else TheReplica;
      WorkGrows(c, p, s, actor);
      var longer := schedule + [actor];
      assert longer[..|longer| - 1] == schedule;
      more := Completes(c, p, longer);
    }
  }

  lemma {:induction false} FlatMonotone(batches: seq<seq<PageData>>, k: nat, n: nat)
    requires k <= n <= |batches|
    ensures Flat(batches, k) <= Flat(batches, n)
  {
    if k < n {
      FlatMonotone(batches, k, n - 1);
    }
  }

  /** The pages written so far are a prefix of the whole transfer. */
  lemma WritesArePrefix(c: Session, p: Plan, s: Joint)
    requires Inv(c, p, s)
    ensures s.writes <= Flat(p.batches, p.N())
  {
    match s.r
    case RSendHashes(_, _, k) => FlatMonotone(p.batches, k, p.N());
    case RAwaitPages(_, _, k) => FlatMonotone(p.batches, k, p.N());
    case RWriting(_, _, k, pages, written) =>
      assert Flat(p.batches, k + 1) == Flat(p.batches, k) + pages;
      assert s.writes <= Flat(p.batches, k + 1);
      FlatMonotone(p.batches, k + 1, p.N());
    case RFailed(_) => FlatMonotone(p.batches, s.oRead - 2, p.N());
    case _ =>
  }
}
