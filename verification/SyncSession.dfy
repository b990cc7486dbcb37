/** The two ends of a sync session as communicating state machines
    (`run_with_tuning` in src/protocol/origin.rs and src/protocol/replica.rs).

    One step of an end is one receive, one send or one page write.  The two directions of
    the transport are FIFO logs with a read cursor, so a state also records everything
    sent so far.  The machine is written over the computations of the two ends, collected
    in `Session`; `SessionOf` fills them in for two concrete databases. */
module SyncSession {
  import opened Basics
  import opened Hashing
  import opened Protocol
  import O = OriginSide
  import R = ReplicaSide

  datatype FineReply = Rejected | Panic | Reply(pages: seq<PageData>)

  datatype Session = Session(
    originPageSize: nat,
    originPageCount: nat,
    replicaPageSize: nat,
    replicaPages: seq<Page>,
    needFine: (Algorithm, seq<Hash>) -> seq<nat>,                      // origin, coarse pass
    finePages: (Algorithm, nat, seq<nat>, seq<Hash>) -> FineReply,     // origin, fine pass
    ackMatches: (seq<nat>, seq<nat>) -> bool,                          // origin, acknowledgement
    pageHashes: Algorithm -> seq<Hash>,                                // replica, its content
    groupHashes: Algorithm -> Option<seq<Hash>>,                       // replica, coarse pass
    listing: (seq<Hash>, nat) -> (seq<nat>, seq<Hash>),                // replica, fine pass
    write: (seq<Page>, PageData) -> Option<seq<Page>>,                 // replica, page write
    fits: Message -> bool)                                             // transport, message size

  /** Two databases, and the transport's size test on messages. */
  datatype Config = Config(digest: Digest, origin: Database, replica: Database, fits: Message -> bool)

  function FineReplyTo(d: Digest, alg: Algorithm, pages: seq<Page>, g: nat, nos: seq<nat>, hs: seq<Hash>): FineReply {
    if |nos| != |hs| || !O.PrefixOfGroup(nos, g) then Rejected
    else
      var sent := O.FinePages(d, alg, pages, g, nos, hs);
      if sent.None? then Panic else Reply(sent.value)
  }

  function ReplicaGroups(d: Digest, alg: Algorithm, pages: seq<Page>): Option<seq<Hash>> {
    R.Collect(R.GroupHashes(d, alg, HashPages(d, alg, pages)), 0, R.NumGroups(|pages|))
  }

  function SessionOf(c: Config): Session {
    Session(
      c.origin.pageSize,
      |c.origin.pages|,
      c.replica.pageSize,
      c.replica.pages,
      (alg, hs) => O.NeedFine(c.digest, alg, c.origin.pages, hs),
      (alg: Algorithm, g: nat, nos: seq<nat>, hs: seq<Hash>) => FineReplyTo(c.digest, alg, c.origin.pages, g, nos, hs),
      (expected, acked) => NoDuplicates(acked) && ToSet(expected) == ToSet(acked),
      alg => HashPages(c.digest, alg, c.replica.pages),
      alg => ReplicaGroups(c.digest, alg, c.replica.pages),
      (hs: seq<Hash>, g: nat) => (R.GroupPageNos(|hs|, g), R.GroupPageHashes(hs, g)),
      (file: seq<Page>, page: PageData) => WritePage(file, c.replica.pageSize, page.pageNo, page.data),
      c.fits)
  }

  /** Whether the receiver's transport accepts a message.  Only the messages that carry
      lists can be too large. */
  predicate Delivered(c: Session, msg: Message) {
    msg.Hello? || msg.HelloAck? || msg.Done? || msg.Error? || c.fits(msg)
  }

  datatype OState =
    | OAwaitHello
    | OSendHelloAck(version: nat, alg: Algorithm)
    | OAwaitGroups(alg: Algorithm)
    | OSendNeed(alg: Algorithm, needFine: seq<nat>)
    | OAwaitHashes(alg: Algorithm, needFine: seq<nat>, k: nat)
    | OSendPages(alg: Algorithm, needFine: seq<nat>, k: nat, pages: seq<PageData>)
    | OAwaitAck(alg: Algorithm, needFine: seq<nat>, k: nat, expected: seq<nat>)
    | OSendDone
    | OOk
    | OSendError(fault: Fault)
    | OFailed(fault: Fault)
    | OPanicked

  datatype RState =
    | RSendHello
    | RAwaitHelloAck
    | RSendGroups(hashes: seq<Hash>, groupHashes: seq<Hash>)
    | RAwaitNeed(hashes: seq<Hash>)
    | RAwaitEarlyDone
    | RSendHashes(hashes: seq<Hash>, needFine: seq<nat>, k: nat)
    | RAwaitPages(hashes: seq<Hash>, needFine: seq<nat>, k: nat)
    | RWriting(hashes: seq<Hash>, needFine: seq<nat>, k: nat, pages: seq<PageData>, written: nat)
    | RAwaitDone
    | ROk
    | RSendError(fault: Fault)
    | RFailed(fault: Fault)
    | RPanicked

  predicate OWaiting(st: OState) {
    st.OAwaitHello? || st.OAwaitGroups? || (st.OAwaitHashes? && st.k < |st.needFine|) || st.OAwaitAck?
  }

  predicate OSending(st: OState) {
    st.OSendHelloAck? || st.OSendNeed? || st.OSendPages? || st.OSendDone? || st.OSendError?
  }

  predicate RWaiting(st: RState) {
    st.RAwaitHelloAck? || st.RAwaitNeed? || st.RAwaitEarlyDone? || st.RAwaitPages? || st.RAwaitDone?
  }

  predicate OFinished(st: OState) {
    st.OOk? || st.OFailed? || st.OPanicked?
  }

  predicate RFinished(st: RState) {
    st.ROk? || st.RFailed? || st.RPanicked?
  }

  // ----- Origin -----

  function OriginHello(c: Session, version: nat, pageSize: nat): OState {
    if version == 0 then OSendError(VersionZero)
    else
      var negotiated := Min(version, PROTOCOL_VERSION);
      var alg := FromProtocolVersion(negotiated);
      if alg.None? then OFailed(BadVersion)
      else if c.originPageSize != pageSize && pageSize != 0 then OSendError(PageSizeMismatch)
      else OSendHelloAck(negotiated, alg.value)
  }

  function OriginCoarse(c: Session, alg: Algorithm, firstGroup: nat, hs: seq<Hash>): OState {
    if firstGroup != 0 then OSendError(FirstGroupNotZero) else OSendNeed(alg, c.needFine(alg, hs))
  }

  function OriginFine(c: Session, alg: Algorithm, needFine: seq<nat>, k: nat, nos: seq<nat>, hs: seq<Hash>): OState
    requires k < |needFine|
  {
    match c.finePages(alg, needFine[k], nos, hs)
    case Rejected => OSendError(BadPageHashes)
    case Panic => OPanicked
    case Reply(pages) => OSendPages(alg, needFine, k, pages)
  }

  function NextGroup(alg: Algorithm, needFine: seq<nat>, k: nat): OState {
    if k < |needFine| then OAwaitHashes(alg, needFine, k) else OSendDone
  }

  function OriginReceive(c: Session, st: OState, msg: Message): OState
    requires OWaiting(st)
  {
    if msg.Error? then OFailed(msg.fault)
    else match st
      case OAwaitHello =>
        if msg.Hello? then OriginHello(c, msg.version, msg.pageSize) else OSendError(Unexpected)
      case OAwaitGroups(alg) =>
        if msg.GroupHashes? then OriginCoarse(c, alg, msg.firstGroup, msg.groupHashes) else OSendError(Unexpected)
      case OAwaitHashes(alg, needFine, k) =>
        if msg.PageHashes? then OriginFine(c, alg, needFine, k, msg.pageNos, msg.hashes)
        else OSendError(if msg.Done? then EarlyDone else Unexpected)
      case OAwaitAck(alg, needFine, k, expected) =>
        if !msg.PagesAck? then OSendError(Unexpected)
        else if c.ackMatches(expected, msg.acked) then NextGroup(alg, needFine, k + 1)
        else OSendError(BadAck)
  }

  function OriginSend(c: Session, st: OState): (Message, OState)
    requires OSending(st)
  {
    match st
    case OSendHelloAck(version, alg) =>
      (HelloAck(version, c.originPageSize, c.originPageCount), OAwaitGroups(alg))
    case OSendNeed(alg, needFine) => (GroupsNeedFine(needFine), NextGroup(alg, needFine, 0))
    case OSendPages(alg, needFine, k, pages) =>
      (SendPages(pages), OAwaitAck(alg, needFine, k, R.PageNosOf(pages)))
    case OSendDone => (Done, OOk)
    case OSendError(fault) => (Error(fault), OFailed(fault))
  }

  // ----- Replica -----

  function ReplicaHelloAck(c: Session, version: nat): RState {
    var alg := FromProtocolVersion(version);
    if version == 0 || version > PROTOCOL_VERSION || alg.None? then RFailed(BadVersion)
    else
      var groups := c.groupHashes(alg.value);
      if groups.None? then RPanicked else RSendGroups(c.pageHashes(alg.value), groups.value)
  }

  function ReplicaReceive(c: Session, st: RState, msg: Message): RState
    requires RWaiting(st)
  {
    match st
    case RAwaitHelloAck =>
      if msg.HelloAck? then ReplicaHelloAck(c, msg.version)
      else if msg.Error? then RFailed(msg.fault) else RSendError(Unexpected)
    case RAwaitNeed(hs) =>
      if msg.GroupsNeedFine? then
        if msg.groups == [] then RAwaitEarlyDone else RSendHashes(hs, msg.groups, 0)
      else if msg.Error? then RFailed(msg.fault) else RSendError(Unexpected)
    case RAwaitEarlyDone =>
      if msg.Done? then ROk else RSendError(NoDone)
    case RAwaitPages(hs, needFine, k) =>
      if msg.SendPages? then RWriting(hs, needFine, k, msg.pages, 0)
      else if msg.Done? then if k + 1 < |needFine| then RSendError(EarlyDone) else ROk
      else if msg.Error? then RFailed(msg.fault) else RSendError(Unexpected)
    case RAwaitDone =>
      if msg.Done? then ROk else RSendError(NoDone)
  }

  /** The replica is ready to send. */
  predicate RSending(st: RState) {
    || st.RSendHello? || st.RSendGroups? || st.RSendError?
    || (st.RSendHashes? && st.k < |st.needFine|)
    || (st.RWriting? && st.written >= |st.pages|)
  }

  function ReplicaSend(c: Session, st: RState): (Message, RState)
    requires RSending(st)
  {
    match st
    case RSendHello => (Hello(PROTOCOL_VERSION, c.replicaPageSize, |c.replicaPages|), RAwaitHelloAck)
    case RSendGroups(hs, groupHashes) => (GroupHashes(0, groupHashes), RAwaitNeed(hs))
    case RSendHashes(hs, needFine, k) =>
      var (nos, hashes) := c.listing(hs, needFine[k]);
      (PageHashes(nos, hashes), RAwaitPages(hs, needFine, k))
    case RWriting(hs, needFine, k, pages, _) =>
      (PagesAck(R.PageNosOf(pages)),
       if k + 1 < |needFine| then RSendHashes(hs, needFine, k + 1) else RAwaitDone)
    case RSendError(fault) => (Error(fault), RFailed(fault))
  }

  // ----- Joint steps -----

  datatype Joint = Joint(
    o: OState,
    r: RState,
    file: seq<Page>,        // the replica's database file
    writes: seq<PageData>,  // pages written so far
    oLog: seq<Message>,     // everything the origin has sent
    oRead: nat,             // how much of it the replica has received
    rLog: seq<Message>,     // everything the replica has sent
    rRead: nat)             // how much of it the origin has received

  datatype Actor = TheOrigin | TheReplica

  function Start(c: Session): Joint {
    Joint(OAwaitHello, RSendHello, c.replicaPages, [], [], 0, [], 0)
  }

  /** The origin's next step.  A receive on an empty channel blocks while the peer runs
      and reports a closed connection once the peer has returned.  A message that is too
      large makes the receive fail. */
  function OriginStep(c: Session, s: Joint): Option<Joint> {
    if OWaiting(s.o) then
      if s.rRead < |s.rLog| then
        var msg := s.rLog[s.rRead];
        var next := if Delivered(c, msg) then OriginReceive(c, s.o, msg) else OFailed(FrameTooLarge);
        Some(s.(o := next, rRead := s.rRead + 1))
      else if RFinished(s.r) then Some(s.(o := OFailed(ConnectionClosed)))
      else None
    else if OSending(s.o) then
      var (msg, next) := OriginSend(c, s.o);
      Some(s.(o := next, oLog := s.oLog + [msg]))
    else None
  }

  function ReplicaWrite(c: Session, s: Joint): Joint
    requires s.r.RWriting? && s.r.written < |s.r.pages|
  {
    var page := s.r.pages[s.r.written];
    var file := c.write(s.file, page);
    if file.None? then s.(r := RFailed(BadWrite))
    else s.(r := s.r.(written := s.r.written + 1), file := file.value, writes := s.writes + [page])
  }

  function ReplicaStep(c: Session, s: Joint): Option<Joint> {
    if RWaiting(s.r) then
      if s.oRead < |s.oLog| then
        var msg := s.oLog[s.oRead];
        var next := if Delivered(c, msg) then ReplicaReceive(c, s.r, msg) else RFailed(FrameTooLarge);
        Some(s.(r := next, oRead := s.oRead + 1))
      else if OFinished(s.o) then Some(s.(r := RFailed(ConnectionClosed)))
      else None
    else if RSending(s.r) then
      var (msg, next) := ReplicaSend(c, s.r);
      Some(s.(r := next, rLog := s.rLog + [msg]))
    else if s.r.RWriting? then Some(ReplicaWrite(c, s))
    else None
  }

  function Step(c: Session, s: Joint, actor: Actor): Option<Joint> {
    if actor.TheOrigin? then OriginStep(c, s) else ReplicaStep(c, s)
  }

  /** The state after a schedule; scheduling a blocked end changes nothing. */
  function Run(c: Session, schedule: seq<Actor>): Joint {
    if schedule == [] then Start(c)
    else
      var s := Run(c, schedule[..|schedule| - 1]);
      var next := Step(c, s, schedule[|schedule| - 1]);
      if next.None? then s else next.value
  }

  /** Nothing can move any more. */
  predicate Stopped(c: Session, s: Joint) {
    OriginStep(c, s).None? && ReplicaStep(c, s).None?
  }

  /** Both ends returned Ok and the replica file holds the origin's pages. */
  predicate Synced(origin: seq<Page>, s: Joint) {
    s.o.OOk? && s.r.ROk? && s.file == origin
  }
}
