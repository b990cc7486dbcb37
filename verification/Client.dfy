/** The failover client's retry loop against the gateway's admission check
    (crates/rsqlite-rsync-client/src/client.rs, src/gateway/server.rs). */
module Client {
  import opened Basics
  import opened HaPolicy
  import opened HaNode
  import KvText

  type Endpoint = string

  /** How a deployment addresses its nodes: an optional service name and the port. */
  datatype Naming = Naming(service: string, port: nat)

  function EndpointOf(node: NodeId, naming: Naming): Endpoint {
    "http://" + node + (if naming.service == "" then "" else "." + naming.service) + ":" + KvText.Show(naming.port)
  }

  function NormalizeEndpoint(endpoint: Endpoint): Endpoint {
    var trimmed := KvText.Trim(endpoint);
    if "http://" <= trimmed || "https://" <= trimmed then trimmed else "http://" + trimmed
  }

  datatype Code = Unavailable | DeadlineExceeded | FailedPrecondition | InvalidArgument | Internal | Other

  datatype Status = Status(code: Code, saysNotLeader: bool, leaderHint: Option<Endpoint>)

  predicate IsNotLeader(status: Status) {
    status.code == FailedPrecondition && status.saysNotLeader
  }

  datatype Reply = Done(generation: nat) | Refused(status: Status)

  // ----- The server side of one write -----

  /** What becomes of a request past the admission check.  A failing engine may or may not
      have applied the write. */
  datatype Engine = Applied | NoStatement | EngineError(applied: bool)

  /** The leader endpoint a refusal carries: that of the leader the gateway knows. */
  function LeaderHint(st: Shared, naming: Naming): Option<Endpoint> {
    if st.leader.None? then None else Some(EndpointOf(st.leader.value, naming))
  }

  /** A write handled by a gateway whose shared state is `st`: the admission check comes
      before anything touches the database.  Returns the reply and whether the write ran. */
  function Serve(st: Shared, naming: Naming, now: nat, engine: Engine): (Reply, bool) {
    var access := CheckWriteAccess(st, now);
    if access.None? then (Refused(Status(FailedPrecondition, true, LeaderHint(st, naming))), false)
    else match engine
      case Applied => (Done(access.value), true)
      case NoStatement => (Refused(Status(InvalidArgument, false, None)), false)
      case EngineError(applied) => (Refused(Status(Internal, false, None)), applied)
  }

  /** One call as the world decides it: the request reaches a gateway and its reply comes
      back, or the reply is lost, or the request never arrives. */
  datatype Call =
    | Answered(st: Shared, naming: Naming, now: nat, engine: Engine)
    | ReplyLost(st: Shared, naming: Naming, now: nat, engine: Engine, lost: Code)
    | NeverArrived(lost: Code)

  function Heard(call: Call): Reply {
    match call
    case Answered(st, naming, now, engine) => Serve(st, naming, now, engine).0
    case ReplyLost(_, _, _, _, code) => Refused(Status(code, false, None))
    case NeverArrived(code) => Refused(Status(code, false, None))
  }

  predicate Ran(call: Call) {
    match call
    case Answered(st, naming, now, engine) => Serve(st, naming, now, engine).1
    case ReplyLost(st, naming, now, engine, _) => Serve(st, naming, now, engine).1
    case NeverArrived(_) => false
  }

  // ----- The retry loop -----

  datatype Connect = Connected(endpoint: Endpoint) | BadEndpoint | ConnectFailed

  /** What one attempt meets: how connecting goes, if it has to connect, and the call. */
  datatype Attempt = Attempt(connect: Connect, call: Call)

  datatype Result = Succeeded(generation: nat) | InvalidEndpoint | Rpc(status: Status) | RetriesExhausted(attempts: nat)

  /** How one attempt ends: a final result, or another try. */
  datatype Verdict = Final(result: Result) | Again

  function ConnectVerdict(failure: Connect, attempts: nat, maxRetries: nat): Verdict {
    if failure.BadEndpoint? then Final(InvalidEndpoint)
    else if attempts >= maxRetries then Final(RetriesExhausted(attempts))
    else Again
  }

  predicate ShouldRetry(status: Status, idempotent: bool) {
    IsNotLeader(status) || (idempotent && (status.code == Unavailable || status.code == DeadlineExceeded))
  }

  function CallVerdict(reply: Reply, idempotent: bool, attempts: nat, maxRetries: nat): Verdict {
    match reply
    case Done(generation) => Final(Succeeded(generation))
    case Refused(status) =>
      if !ShouldRetry(status, idempotent) then Final(Rpc(status))
      else if attempts >= maxRetries then Final(RetriesExhausted(attempts))
      else Again
  }

  /** One attempt: its verdict, and how often the write ran in it. */
  function JudgeAttempt(a: Attempt, connected: bool, idempotent: bool, attempts: nat, maxRetries: nat): (Verdict, nat) {
    if !connected && !a.connect.Connected? then (ConnectVerdict(a.connect, attempts, maxRetries), 0)
    else (CallVerdict(Heard(a.call), idempotent, attempts, maxRetries), if Ran(a.call) then 1 else 0)
  }

  /** A request in full: its result, how often the write ran, and how many attempts it took. */
  datatype Journey = Journey(result: Result, runs: nat, attempts: nat)

  function Resumed(rest: Journey, runs: nat): Journey {
    rest.(runs := rest.runs + runs)
  }

  /** The loop after `attempts` attempts; `world` is what each attempt meets. */
  function Retry(world: seq<Attempt>, connected: bool, idempotent: bool, attempts: nat, maxRetries: nat): Journey
    requires attempts < |world| && Max(maxRetries, 1) <= |world|
    decreases |world| - attempts
  {
    var (verdict, ran) := JudgeAttempt(world[attempts], connected, idempotent, attempts + 1, maxRetries);
    if verdict.Final? then Journey(verdict.result, ran, attempts + 1)
    else Resumed(Retry(world, false, idempotent, attempts + 1, maxRetries), ran)
  }

  function NextBackoff(current: nat, max: nat): nat {
    Min(Min(2 * current, U64_MAX), max)
  }

  /** Wait `i` is the initial one, or follows from the wait before it. */
  predicate Follows(initial: nat, max: nat, waits: seq<nat>, i: nat)
    requires i < |waits|
  {
    waits[i] == if i == 0 then initial else NextBackoff(waits[i - 1], max)
  }

  predicate Doubling(initial: nat, max: nat, waits: seq<nat>) {
    forall i :: 0 <= i < |waits| ==> Follows(initial, max, waits, i)
  }

  lemma NextWait(initial: nat, max: nat, waits: seq<nat>, next: nat)
    requires waits != [] && Doubling(initial, max, waits) && next == NextBackoff(waits[|waits| - 1], max)
    ensures Doubling(initial, max, waits + [next])
  {
    forall i | 0 <= i < |waits| ensures Follows(initial, max, waits + [next], i) {
      assert Follows(initial, max, waits, i);
    }
  }

  lemma Truncated(initial: nat, max: nat, waits: seq<nat>, next: nat)
    requires Doubling(initial, max, waits + [next])
    ensures Doubling(initial, max, waits)
  {
    forall i | 0 <= i < |waits| ensures Follows(initial, max, waits, i) {
      assert Follows(initial, max, waits + [next], i);
    }
  }

  /** In closed form: after the first, the waits are the initial one doubled each time,
      under the maximum. */
  lemma {:induction false} WaitsDouble(initial: nat, max: nat, waits: seq<nat>, i: nat)
    requires max <= U64_MAX && Doubling(initial, max, waits) && i < |waits|
    ensures waits[i] == if i == 0 then initial else Min(initial * Pow2(i), max)
  {
    assert Follows(initial, max, waits, i);
    if i > 0 {
      WaitsDouble(initial, max, waits, i - 1);
      DoubledProduct(initial, i - 1);
      NextDoubles(initial * Pow2(i - 1), max);
    }
  }

  lemma NextDoubles(x: nat, max: nat)
    requires max <= U64_MAX
    ensures NextBackoff(x, max) == NextBackoff(Min(x, max), max) == Min(2 * x, max)
  {
  }

  // ----- Where an attempt goes -----

  /** The endpoint an attempt calls, if it gets to call. */
  function Target(a: Attempt, connected: bool, endpoint: Option<Endpoint>): Option<Endpoint> {
    if connected || (a.connect.Connected? && endpoint.Some?) then endpoint
    else if a.connect.Connected? then Some(a.connect.endpoint)
    else None
  }

  /** Where a further attempt goes: to the leader named by a gateway that refused this one;
      otherwise discovery decides. */
  function Redirect(a: Attempt, connected: bool): Option<Endpoint> {
    if (connected || a.connect.Connected?) && a.call.Answered? && !IsWriter(a.call.st, a.call.now)
       && a.call.st.leader.Some?
    then Some(EndpointOf(a.call.st.leader.value, a.call.naming)) else None
  }

  /** The endpoint the client holds before attempt `i`. */
  function EndpointBefore(world: seq<Attempt>, connected: bool, endpoint: Option<Endpoint>, i: nat): Option<Endpoint>
    requires i <= |world|
  {
    if i == 0 then endpoint else Redirect(world[i - 1], i == 1 && connected)
  }

  /** Attempt `i` goes to `target`. */
  predicate Goes(world: seq<Attempt>, connected: bool, endpoint: Option<Endpoint>, i: nat, target: Option<Endpoint>)
    requires i < |world|
  {
    target == Target(world[i], i == 0 && connected, EndpointBefore(world, connected, endpoint, i))
  }

  /** Every attempt goes where the one before it was pointed. */
  predicate Routed(world: seq<Attempt>, connected: bool, endpoint: Option<Endpoint>, targets: seq<Option<Endpoint>>) {
    |targets| <= |world| && forall i :: 0 <= i < |targets| ==> Goes(world, connected, endpoint, i, targets[i])
  }

  lemma RoutedNext(world: seq<Attempt>, connected: bool, endpoint: Option<Endpoint>,
                   targets: seq<Option<Endpoint>>, target: Option<Endpoint>)
    requires Routed(world, connected, endpoint, targets) && |targets| < |world|
    requires Goes(world, connected, endpoint, |targets|, target)
    ensures Routed(world, connected, endpoint, targets + [target])
  {
  }

  /** A normalized endpoint has a scheme and no outer whitespace; normalizing adds nothing
      to one that has both, and otherwise only a missing scheme. */
  lemma NormalizedOnce(endpoint: Endpoint)
    ensures var e, bare := NormalizeEndpoint(endpoint), KvText.Trim(endpoint);
            && ("http://" <= e || "https://" <= e) && KvText.Trimmed(e) && NormalizeEndpoint(e) == e
            && (if "http://" <= bare || "https://" <= bare then e == bare else e == "http://" + bare)
  {
    var e := NormalizeEndpoint(endpoint);
    var _, _ := KvText.TrimShape(endpoint);
    var _, _ := KvText.TrimShape(e);
  }

  /** A gateway's hint reads as itself. */
  lemma HintKept(node: NodeId, naming: Naming)
    ensures EndpointOf(node, naming) != "" && NormalizeEndpoint(EndpointOf(node, naming)) == EndpointOf(node, naming)
  {
    var e, port := EndpointOf(node, naming), KvText.Show(naming.port);
    KvText.ShowParses(naming.port);
    var _, _ := KvText.TrimShape(e);
    assert e[|e| - 1] == port[|port| - 1];
    assert KvText.IsDigit(port[|port| - 1]);
    assert e[..7] == "http://";
  }

  lemma HintRedirects(call: Call)
    requires Heard(call).Refused?
    ensures var hint := Heard(call).status.leaderHint;
            if call.Answered? && !IsWriter(call.st, call.now) && call.st.leader.Some?
            then hint.Some? && hint.value != "" &&
                 NormalizeEndpoint(hint.value) == EndpointOf(call.st.leader.value, call.naming)
            else hint == None
  {
    if call.Answered? && !IsWriter(call.st, call.now) && call.st.leader.Some? {
      HintKept(call.st.leader.value, call.naming);
    }
  }

  class GatewayClient {
    const maxRetries: nat
    const initialBackoff: nat
    const maxBackoff: nat
    var endpoint: Option<Endpoint>
    var connected: bool

    constructor (maxRetries: nat, initialBackoff: nat, maxBackoff: nat)
      ensures this.maxRetries == maxRetries && this.initialBackoff == initialBackoff && this.maxBackoff == maxBackoff
      ensures endpoint == None && !connected
    {
      this.maxRetries := maxRetries;
      this.initialBackoff := initialBackoff;
      this.maxBackoff := maxBackoff;
      endpoint := None;
      connected := false;
    }

    method ResetConnection()
      modifies this
      ensures endpoint == None && !connected
    {
      connected := false;
      endpoint := None;
    }

    /** A live connection is kept; otherwise `outcome` says how connecting goes. */
    method GetOrConnect(outcome: Connect) returns (failure: Option<Connect>)
      modifies this
      ensures failure == if old(connected) || outcome.Connected? then None else Some(outcome)
      ensures connected == failure.None?
      ensures endpoint == if failure.None? && !old(connected) && old(endpoint).None? then Some(outcome.endpoint)
                          else old(endpoint)
    {
      if connected {
        return None;
      }
      if !outcome.Connected? {
        return Some(outcome);
      }
      if endpoint.None? {
        endpoint := Some(outcome.endpoint);
      }
      connected := true;
      return None;
    }

    /** A usable hint redirects the next attempt; otherwise it starts from discovery. */
    method ProcessLeaderHeader(status: Status)
      modifies this
      ensures !connected
      ensures endpoint == if status.leaderHint.Some? && status.leaderHint.value != ""
                          then Some(NormalizeEndpoint(status.leaderHint.value)) else None
    {
      if status.leaderHint.Some? && status.leaderHint.value != "" {
        endpoint := Some(NormalizeEndpoint(status.leaderHint.value));
        connected := false;
      } else {
        ResetConnection();
      }
    }

    /** One pass through the loop body, up to the wait; `target` is the endpoint the call
        went to. */
    method TryOnce(a: Attempt, idempotent: bool, attempts: nat)
      returns (verdict: Verdict, ran: nat, target: Option<Endpoint>)
      modifies this
      ensures (verdict, ran) == JudgeAttempt(a, old(connected), idempotent, attempts, maxRetries)
      ensures target == Target(a, old(connected), old(endpoint))
      ensures verdict.Again? ==> !connected && endpoint == Redirect(a, old(connected))
    {
      var failure := GetOrConnect(a.connect);
      target := None;
      if failure.Some? {
        if failure.value.BadEndpoint? {
          return Final(InvalidEndpoint), 0, target;
        }
        if attempts >= maxRetries {
          return Final(RetriesExhausted(attempts)), 0, target;
        }
        ResetConnection();
        return Again, 0, target;
      }
      target := endpoint;
      ran := if Ran(a.call) then 1 else 0;
      var reply := Heard(a.call);
      if reply.Done? {
        return Final(Succeeded(reply.generation)), ran, target;
      }
      if !ShouldRetry(reply.status, idempotent) {
        return Final(Rpc(reply.status)), ran, target;
      }
      if attempts >= maxRetries {
        return Final(RetriesExhausted(attempts)), ran, target;
      }
      HintRedirects(a.call);
      ProcessLeaderHeader(reply.status);
      return Again, ran, target;
    }

    /** Where a request stands before attempt `i`, having started from the given state. */
    ghost predicate Before(world: seq<Attempt>, wasConnected: bool, start: Option<Endpoint>, i: nat)
      requires i <= |world|
      reads this
    {
      connected == (i == 0 && wasConnected) && endpoint == EndpointBefore(world, wasConnected, start, i)
    }

    /** Attempt `i` of a request. */
    method Pass(world: seq<Attempt>, i: nat, idempotent: bool, ghost wasConnected: bool, ghost start: Option<Endpoint>)
      returns (verdict: Verdict, ran: nat, target: Option<Endpoint>)
      requires i < |world| && Max(maxRetries, 1) <= |world| && Before(world, wasConnected, start, i)
      modifies this
      ensures verdict.Again? ==> i + 1 < |world|
      ensures Retry(world, old(connected), idempotent, i, maxRetries) ==
              if verdict.Final? then Journey(verdict.result, ran, i + 1)
              else Resumed(Retry(world, false, idempotent, i + 1, maxRetries), ran)
      ensures Goes(world, wasConnected, start, i, target)
      ensures verdict.Again? ==> !connected && Before(world, wasConnected, start, i + 1)
    {
      verdict, ran, target := TryOnce(world[i], idempotent, i + 1);
    }

    method RetryLoop(idempotent: bool, world: seq<Attempt>)
      returns (result: Result, runs: nat, attempts: nat, slept: seq<nat>, targets: seq<Option<Endpoint>>)
      requires |world| >= Max(maxRetries, 1)
      modifies this
      ensures Journey(result, runs, attempts) == Retry(world, old(connected), idempotent, 0, maxRetries)
      ensures attempts == |slept| + 1 && Doubling(initialBackoff, maxBackoff, slept)
      ensures |targets| == attempts && Routed(world, old(connected), old(endpoint), targets)
    {
      attempts, runs, slept, targets := 0, 0, [], [];
      var backoff: nat := initialBackoff;
      ghost var journey := Retry(world, connected, idempotent, 0, maxRetries);
      while true
        invariant attempts < |world| && Max(maxRetries, 1) <= |world|
        invariant Before(world, old(connected), old(endpoint), attempts)
        invariant Resumed(Retry(world, connected, idempotent, attempts, maxRetries), runs) == journey
        invariant |slept| == attempts && Doubling(initialBackoff, maxBackoff, slept + [backoff])
        invariant |targets| == attempts && Routed(world, old(connected), old(endpoint), targets)
        decreases |world| - attempts
      {
        var verdict, ran, target := Pass(world, attempts, idempotent, old(connected), old(endpoint));
        attempts, runs := attempts + 1, runs + ran;
        RoutedNext(world, old(connected), old(endpoint), targets, target);
        targets := targets + [target];
        if verdict.Final? {
          Truncated(initialBackoff, maxBackoff, slept, backoff);
          return verdict.result, runs, attempts, slept, targets;
        }
        NextWait(initialBackoff, maxBackoff, slept + [backoff], NextBackoff(backoff, maxBackoff));
        slept := slept + [backoff];
        backoff := NextBackoff(backoff, maxBackoff);
      }
    }
  }

  // ----- What the caller may conclude -----

  /** A write runs iff it reaches a writer whose engine applies it.  A success says that it
      ran, NOT_LEADER that it did not; other errors leave it open. */
  lemma ReplyTellsIfRun(call: Call)
    ensures Ran(call) <==>
            && !call.NeverArrived? && IsWriter(call.st, call.now)
            && (call.engine == Applied || call.engine == EngineError(true))
    ensures Heard(call).Done? ==> Ran(call)
    ensures Heard(call).Refused? && IsNotLeader(Heard(call).status) ==> !Ran(call)
  {
  }

  /** At-most-once writes.  Whatever connections fail and whichever replies are lost, a
      write sent without the idempotent flag runs at most once; exactly once if the client
      reports success; never if it reports exhausted retries or a bad endpoint. */
  lemma {:induction false} AtMostOnce(world: seq<Attempt>, connected: bool, attempts: nat, maxRetries: nat)
    requires attempts < |world| && Max(maxRetries, 1) <= |world|
    ensures var j := Retry(world, connected, false, attempts, maxRetries);
            && j.runs <= 1
            && (j.result.Succeeded? ==> j.runs == 1)
            && (j.result.RetriesExhausted? || j.result.InvalidEndpoint? ==> j.runs == 0)
            && attempts < j.attempts <= Max(attempts + 1, maxRetries)
    decreases |world| - attempts
  {
    var a, n := world[attempts], attempts + 1;
    ReplyTellsIfRun(a.call);
    if !connected && !a.connect.Connected? {
      if ConnectVerdict(a.connect, n, maxRetries).Again? {
        AtMostOnce(world, false, n, maxRetries);
      }
    } else if CallVerdict(Heard(a.call), false, n, maxRetries).Again? {
      AtMostOnce(world, false, n, maxRetries);
    }
  }

  /** The attempt ends with another one, if there may be one: it could not connect, or a
      gateway that is not writer refused it, or the flag allows it and the reply was lost. */
  predicate TurnedAway(a: Attempt, connected: bool, idempotent: bool) {
    if !connected && !a.connect.Connected? then a.connect.ConnectFailed?
    else match a.call
      case Answered(st, _, now, _) => !IsWriter(st, now)
      case ReplyLost(_, _, _, _, code) => idempotent && (code == Unavailable || code == DeadlineExceeded)
      case NeverArrived(code) => idempotent && (code == Unavailable || code == DeadlineExceeded)
  }

  /** What the client reports after an attempt that was not turned away. */
  function Settled(a: Attempt, connected: bool): Result {
    if !connected && !a.connect.Connected? then InvalidEndpoint
    else match a.call
      case Answered(st, _, _, engine) => (
        match engine
        case Applied => Succeeded(st.generation)
        case NoStatement => Rpc(Status(InvalidArgument, false, None))
        case EngineError(_) => Rpc(Status(Internal, false, None)))
      case ReplyLost(_, _, _, _, code) => Rpc(Status(code, false, None))
      case NeverArrived(code) => Rpc(Status(code, false, None))
  }

  /** Attempt `i` of a request; only the first can find a live connection. */
  predicate Away(world: seq<Attempt>, connected: bool, idempotent: bool, i: nat)
    requires i < |world|
  {
    TurnedAway(world[i], i == 0 && connected, idempotent)
  }

  /** Every journey goes through attempts that are turned away until one is not, and reports
      what that one met, or the retries run out. */
  lemma {:induction false} JourneyFrom(world: seq<Attempt>, connected: bool, idempotent: bool,
                                       first: nat, maxRetries: nat)
    requires first < Max(maxRetries, 1) <= |world|
    ensures var j, n := Retry(world, first == 0 && connected, idempotent, first, maxRetries), Max(maxRetries, 1);
            && first < j.attempts <= n
            && (forall i :: first <= i < j.attempts - 1 ==> Away(world, connected, idempotent, i))
            && var last: nat := j.attempts - 1;
               if Away(world, connected, idempotent, last) then last + 1 == n && j.result == RetriesExhausted(n)
               else j.result == Settled(world[last], last == 0 && connected)
    decreases |world| - first
  {
    var a, c := world[first], first == 0 && connected;
    JudgedAsMet(a, c, idempotent, first + 1, maxRetries);
    if TurnedAway(a, c, idempotent) && first + 1 < maxRetries {
      JourneyFrom(world, connected, idempotent, first + 1, maxRetries);
      assert Away(world, connected, idempotent, first);
    }
  }

  lemma JudgedAsMet(a: Attempt, connected: bool, idempotent: bool, attempts: nat, maxRetries: nat)
    ensures JudgeAttempt(a, connected, idempotent, attempts, maxRetries).0 ==
            if !TurnedAway(a, connected, idempotent) then Final(Settled(a, connected))
            else if attempts >= maxRetries then Final(RetriesExhausted(attempts))
            else Again
  {
  }

  /** Retries are exhausted exactly when every permitted attempt is turned away. */
  lemma ExhaustedExactlyWhen(world: seq<Attempt>, connected: bool, idempotent: bool, maxRetries: nat)
    requires Max(maxRetries, 1) <= |world|
    ensures var j, n := Retry(world, connected, idempotent, 0, maxRetries), Max(maxRetries, 1);
            && (j.result.RetriesExhausted? <==> forall i :: 0 <= i < n ==> Away(world, connected, idempotent, i))
            && (j.result.RetriesExhausted? ==> j.result.attempts == j.attempts == n)
  {
    JourneyFrom(world, connected, idempotent, 0, maxRetries);
    var j, n := Retry(world, connected, idempotent, 0, maxRetries), Max(maxRetries, 1);
    assert Away(world, connected, idempotent, j.attempts - 1) ==>
      forall i :: 0 <= i < j.attempts ==> Away(world, connected, idempotent, i);
  }

  /** The first attempt that is not turned away, if it comes in time, is the last one made
      and decides the result. */
  lemma FirstSettledDecides(world: seq<Attempt>, connected: bool, idempotent: bool, maxRetries: nat, k: nat)
    requires k < Max(maxRetries, 1) <= |world|
    requires forall i :: 0 <= i < k ==> Away(world, connected, idempotent, i)
    requires !Away(world, connected, idempotent, k)
    ensures var j := Retry(world, connected, idempotent, 0, maxRetries);
            j.attempts == k + 1 && j.result == Settled(world[k], k == 0 && connected)
  {
    JourneyFrom(world, connected, idempotent, 0, maxRetries);
  }

  /** Failover makes progress: a write turned away by dead nodes and replicas runs exactly
      once at the first writer it reaches within the permitted attempts. */
  lemma WriterIsReached(world: seq<Attempt>, connected: bool, maxRetries: nat, k: nat)
    requires k < Max(maxRetries, 1) <= |world|
    requires forall i :: 0 <= i < k ==> Away(world, connected, false, i)
    requires (k == 0 && connected) || world[k].connect.Connected?
    requires world[k].call.Answered? && world[k].call.engine == Applied
    requires IsWriter(world[k].call.st, world[k].call.now)
    ensures Retry(world, connected, false, 0, maxRetries) == Journey(Succeeded(world[k].call.st.generation), 1, k + 1)
  {
    FirstSettledDecides(world, connected, false, maxRetries, k);
    AtMostOnce(world, connected, 0, maxRetries);
  }

  /** In every run of a node a write its gateway refuses is told NOT_LEADER, with the
      endpoint of the holder of the lease last read, and the client's next attempt goes
      there; if no lease was read, back to discovery. */
  lemma RefusalPointsAtHolder(its: seq<Iteration>, states: seq<NodeState>, node: NodeId, n: nat, a: Attempt)
    requires Runs(its, states, node) && n < |its| && a.connect.Connected? && a.call.Answered?
    requires a.call.st == states[n + 1].local.shared && !IsWriter(a.call.st, a.call.now)
    ensures var hint := match its[n].read
                        case Read(Some(lease)) => Some(EndpointOf(lease.holder, a.call.naming))
                        case _ => None;
            && Heard(a.call) == Refused(Status(FailedPrecondition, true, hint))
            && !Ran(a.call) && Redirect(a, false) == hint
  {
    LeaderIsHolder(its, states, node, n);
  }

  /** With the idempotent flag a success still means the write ran, and it runs at most
      once per attempt. */
  lemma {:induction false} AtLeastOnce(world: seq<Attempt>, connected: bool, idempotent: bool,
                                       attempts: nat, maxRetries: nat)
    requires attempts < |world| && Max(maxRetries, 1) <= |world|
    ensures var j := Retry(world, connected, idempotent, attempts, maxRetries);
            (j.result.Succeeded? ==> 1 <= j.runs) && j.runs <= j.attempts - attempts
    decreases |world| - attempts
  {
    var a, n := world[attempts], attempts + 1;
    ReplyTellsIfRun(a.call);
    if !connected && !a.connect.Connected? {
      if ConnectVerdict(a.connect, n, maxRetries).Again? {
        AtLeastOnce(world, false, idempotent, n, maxRetries);
      }
    } else if CallVerdict(Heard(a.call), idempotent, n, maxRetries).Again? {
      AtLeastOnce(world, false, idempotent, n, maxRetries);
    }
  }

  /** Why writes must not carry the flag: one lost reply and the write runs twice. */
  lemma IdempotentFlagRepeats(st: Shared, naming: Naming, now: nat, world: seq<Attempt>)
    requires IsWriter(st, now)
    requires world == [Attempt(Connected("e"), ReplyLost(st, naming, now, Applied, Unavailable)),
                       Attempt(Connected("e"), Answered(st, naming, now, Applied))]
    ensures Retry(world, false, true, 0, 2) == Journey(Succeeded(st.generation), 2, 2)
    ensures Retry(world, false, false, 0, 2) == Journey(Rpc(Status(Unavailable, false, None)), 1, 1)
  {
    assert Retry(world, false, true, 1, 2) == Journey(Succeeded(st.generation), 1, 2);
  }
}
