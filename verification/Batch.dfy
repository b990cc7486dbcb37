/** The bounded-concurrency batch scheduler and its retry delays (src/batch.rs). */
module Batch {
  import opened Basics

  datatype Item = Item(index: nat, ok: bool)

  // ----- One entry with retries -----

  /** `retries.saturating_add(1)` in `u32`. */
  function AttemptCount(retries: nat): nat {
    Min(retries + 1, U32_LIMIT - 1)
  }

  /** A configured number of milliseconds; zero counts as not configured. */
  function Positive(ms: Option<nat>): Option<nat> {
    if ms == Some(0) then None else ms
  }

  /** How an entry is retried, as configured. */
  datatype Retrying = Retrying(retries: nat, base: Option<nat>, max: Option<nat>, pct: nat)

  /** `retry_delay_for_attempt`: the wait after a failed attempt. */
  function WaitAfter(e: Retrying, attempt: nat, entropy: nat): Option<nat> {
    var base := Positive(e.base);
    if base.None? then None else RetryDelay(base.value, Positive(e.max), e.pct, attempt, entropy)
  }

  function WaitFor(e: Retrying, entropy: nat -> nat): nat -> Option<nat> {
    (k: nat) => WaitAfter(e, k, entropy(k))
  }

  /** The waits after the first `n` attempts, all of them failed. */
  function Waits(wait: nat -> Option<nat>, n: nat): seq<nat> {
    if n == 0 then []
    else if wait(n).None? then Waits(wait, n - 1)
    else Waits(wait, n - 1) + [wait(n).value]
  }

  /** The attempt loop, over the wait each failed attempt asks for. */
  method TryAttempts(count: nat, succeeds: nat -> bool, wait: nat -> Option<nat>)
    returns (ok: bool, attempts: nat, waits: seq<nat>)
    requires count > 0
    ensures 1 <= attempts <= count && (ok <==> succeeds(attempts)) && (!ok ==> attempts == count)
    ensures forall k :: 0 < k < attempts ==> !succeeds(k)
    ensures waits == Waits(wait, attempts - 1)
  {
    waits := [];
    for attempt := 1 to count + 1
      invariant forall k :: 0 < k < attempt ==> !succeeds(k)
      invariant waits == Waits(wait, Min(attempt, count) - 1)
    {
      if succeeds(attempt) {
        return true, attempt, waits;
      }
      if attempt < count {
        if wait(attempt).Some? {
          waits := waits + [wait(attempt).value];
        }
      }
    }
    return false, count, waits;
  }

  /** The entry succeeds iff one of its attempts does; no attempt follows a success; and it
      waits after every failed attempt but the last.  A timed-out attempt is a failed one. */
  method RunOne(index: nat, e: Retrying, succeeds: nat -> bool, entropy: nat -> nat)
    returns (item: Item, attempts: nat, waits: seq<nat>)
    ensures item.index == index
    ensures item.ok <==> exists k :: 0 < k <= e.retries + 1 && k < U32_LIMIT && succeeds(k)
    ensures 1 <= attempts <= e.retries + 1 && attempts < U32_LIMIT
    ensures forall k :: 0 < k < attempts ==> !succeeds(k)
    ensures item.ok <==> succeeds(attempts)
    ensures !item.ok ==> attempts == Min(e.retries + 1, U32_LIMIT - 1)
    ensures waits == Waits(WaitFor(e, entropy), attempts - 1)
  {
    var ok;
    ok, attempts, waits := TryAttempts(AttemptCount(e.retries), succeeds, WaitFor(e, entropy));
    item := Item(index, ok);
  }

  // ----- The scheduler -----

  function Keys(items: seq<Item>): (keys: seq<nat>)
    ensures |keys| == |items| && forall i :: 0 <= i < |items| ==> keys[i] == items[i].index
  {
    seq(|items|, i requires 0 <= i < |items| => items[i].index)
  }

  /** Each item carries the outcome of its own entry. */
  ghost predicate Outcomes(items: seq<Item>, outcome: nat -> bool) {
    forall i :: 0 <= i < |items| ==> items[i].ok == outcome(items[i].index)
  }

  ghost predicate SortedByIndex(items: seq<Item>) {
    forall i, j :: 0 <= i < j < |items| ==> items[i].index <= items[j].index
  }

  function CountOk(items: seq<Item>): nat {
    if items == [] then 0 else CountOk(items[..|items| - 1]) + if items[|items| - 1].ok then 1 else 0
  }

  datatype Report = Report(total: nat, succeeded: nat, failed: nat, results: seq<Item>)

  /** The entries of a batch: how each is retried, and what its attempts meet. */
  datatype Specs = Specs(entry: nat -> Retrying, succeeds: (nat, nat) -> bool, entropy: (nat, nat) -> nat)

  /** Some attempt of the entry succeeds. */
  ghost predicate EntryOk(specs: Specs, i: nat) {
    exists k :: 0 < k <= specs.entry(i).retries + 1 && k < U32_LIMIT && specs.succeeds(i, k)
  }

  /** What the scheduler maintains: entries below `next` have been started once each; they
      are finished or in flight, and the slots are full while entries are pending. */
  ghost predicate Scheduled(n: nat, slots: nat, next: nat, inFlight: seq<nat>,
                            results: seq<Item>, outcome: nat -> bool)
  {
    && next <= n && |inFlight| <= slots
    && (next < n ==> |inFlight| == slots)
    && multiset(Keys(results)) + multiset(inFlight) == multiset(Range(0, next))
    && Outcomes(results, outcome)
  }

  /** For any order in which in-flight entries complete: every entry runs exactly once, at
      most `max(jobs, 1)` at a time and exactly that many while entries are pending, and the
      report lists result `i`, the outcome of entry `i` with its retries, at position `i`,
      with the numbers of entries that succeeded and failed. */
  method RunBatchSync(n: nat, jobs: nat, specs: Specs)
    returns (report: Report, ghost started: seq<nat>, ghost peak: nat)
    ensures started == Range(0, n)
    ensures peak == Min(n, Max(jobs, 1))
    ensures |report.results| == report.total == n
    ensures forall i :: 0 <= i < n ==> report.results[i].index == i && (report.results[i].ok <==> EntryOk(specs, i))
    ensures report.succeeded == |set i: nat | i < n && EntryOk(specs, i)|
    ensures report.failed == |set i: nat | i < n && !EntryOk(specs, i)|
  {
    var slots := Max(jobs, 1);
    var inFlight: seq<nat> := [];
    var next := 0;
    while |inFlight| < slots && next < n
      invariant next <= n && inFlight == Range(0, next) && next <= slots
      decreases n - next
    {
      inFlight := inFlight + [next];
      next := next + 1;
    }
    ghost var outcome := (i: nat) => EntryOk(specs, i);
    var results;
    results, started, peak := Drain(n, slots, next, inFlight, specs, outcome);
    var sorted := SortByKey(results);
    InPlace(results, sorted, n, outcome);
    var succeeded := CountSucceeded(sorted);
    CountsEntries(sorted, specs, outcome);
    report := Report(|sorted|, succeeded, SaturatingSub(|sorted|, succeeded), sorted);
  }

  method Drain(n: nat, slots: nat, first: nat, filled: seq<nat>, specs: Specs, ghost outcome: nat -> bool)
    returns (results: seq<Item>, ghost started: seq<nat>, ghost peak: nat)
    requires filled == Range(0, first) && first <= n && first <= slots && (first < n ==> first == slots)
    requires slots > 0 && forall i: nat :: outcome(i) == EntryOk(specs, i)
    ensures multiset(Keys(results)) == multiset(Range(0, n)) && Outcomes(results, outcome)
    ensures started == Range(0, n) && peak == first
  {
    var next := first;
    var inFlight: seq<nat> := filled;
    results, started, peak := [], Range(0, first), first;
    Filled(n, slots, first, outcome);
    while inFlight != []
      invariant Scheduled(n, slots, next, inFlight, results, outcome)
      invariant started == Range(0, next) && peak == first && (first < slots ==> next == n)
      decreases n - next, |inFlight|
    {
      if next < n {
        started := started + [next];
      }
      next, inFlight, results := CompleteOne(n, slots, next, inFlight, results, specs, outcome);
      peak := Max(peak, |inFlight|);
    }
    Drained(n, slots, next, results, outcome);
  }

  /** One in-flight entry completes, whichever it is. */
  method CompleteOne(n: nat, slots: nat, started: nat, inFlight: seq<nat>, results: seq<Item>,
                     specs: Specs, ghost outcome: nat -> bool)
    returns (next: nat, flying: seq<nat>, after: seq<Item>)
    requires Scheduled(n, slots, started, inFlight, results, outcome) && inFlight != []
    requires forall i: nat :: outcome(i) == EntryOk(specs, i)
    ensures Scheduled(n, slots, next, flying, after, outcome)
    ensures if started < n then next == started + 1 else next == started && |flying| < |inFlight|
  {
    var j :| 0 <= j < |inFlight|;
    var index := inFlight[j];
    var succeeds, entropy := (k: nat) => specs.succeeds(index, k), (k: nat) => specs.entropy(index, k);
    var item, attempts, _ := RunOne(index, specs.entry(index), succeeds, entropy);
    assert forall k: nat :: succeeds(k) == specs.succeeds(index, k);
    assert item == Item(index, outcome(index));
    Finished(n, slots, started, inFlight, results, outcome, j);
    after := results + [item];
    next, flying := started, inFlight[..j] + inFlight[j + 1..];
    if next < n {
      next, flying := next + 1, flying + [next];
    }
  }

  lemma Filled(n: nat, slots: nat, first: nat, outcome: nat -> bool)
    requires first <= n && first <= slots && (first < n ==> first == slots)
    ensures Scheduled(n, slots, first, Range(0, first), [], outcome)
  {
    assert Keys([]) == [];
  }

  lemma Drained(n: nat, slots: nat, next: nat, results: seq<Item>, outcome: nat -> bool)
    requires slots > 0 && Scheduled(n, slots, next, [], results, outcome)
    ensures next == n && multiset(Keys(results)) == multiset(Range(0, n)) && Outcomes(results, outcome)
  {
    assert multiset(Keys(results)) + multiset([]) == multiset(Keys(results));
  }

  method CountSucceeded(items: seq<Item>) returns (succeeded: nat)
    ensures succeeded == CountOk(items) <= |items|
  {
    succeeded := 0;
    for i := 0 to |items|
      invariant succeeded == CountOk(items[..i]) <= i
    {
      assert items[..i + 1][..i] == items[..i];
      if items[i].ok {
        succeeded := succeeded + 1;
      }
    }
    assert items[..|items|] == items;
  }

  /** The first `n` positions whose item ended in the given way. */
  ghost function Ending(items: seq<Item>, n: nat, ok: bool): set<nat>
    requires n <= |items|
  {
    set i: nat | i < n && items[i].ok == ok
  }

  lemma OneMore(items: seq<Item>, n: nat, ok: bool)
    requires n < |items|
    ensures |Ending(items, n + 1, ok)| == |Ending(items, n, ok)| + if items[n].ok == ok then 1 else 0
  {
    var rest := Ending(items, n, ok);
    assert Ending(items, n + 1, ok) == if items[n].ok == ok then rest + {n} else rest;
  }

  lemma {:induction false} CountIsSet(items: seq<Item>, n: nat)
    requires n <= |items|
    ensures CountOk(items[..n]) == |Ending(items, n, true)| && n - CountOk(items[..n]) == |Ending(items, n, false)|
  {
    if n > 0 {
      CountIsSet(items, n - 1);
      OneMore(items, n - 1, true);
      OneMore(items, n - 1, false);
      assert items[..n][..n - 1] == items[..n - 1];
    }
  }

  lemma CountsEntries(items: seq<Item>, specs: Specs, outcome: nat -> bool)
    requires forall i: nat :: outcome(i) == EntryOk(specs, i)
    requires forall i :: 0 <= i < |items| ==> items[i] == Item(i, outcome(i))
    ensures CountOk(items) == |set i: nat | i < |items| && EntryOk(specs, i)|
    ensures |items| - CountOk(items) == |set i: nat | i < |items| && !EntryOk(specs, i)|
  {
    CountIsSet(items, |items|);
    assert items[..|items|] == items;
    assert Ending(items, |items|, true) == set i: nat | i < |items| && EntryOk(specs, i);
    assert Ending(items, |items|, false) == set i: nat | i < |items| && !EntryOk(specs, i);
  }

  /** An entry completes and, if one is pending, the next starts in its slot. */
  lemma Finished(n: nat, slots: nat, next: nat, inFlight: seq<nat>, results: seq<Item>, outcome: nat -> bool, j: nat)
    requires Scheduled(n, slots, next, inFlight, results, outcome) && j < |inFlight|
    ensures var rest := inFlight[..j] + inFlight[j + 1..];
            var after := results + [Item(inFlight[j], outcome(inFlight[j]))];
            if next < n then Scheduled(n, slots, next + 1, rest + [next], after, outcome)
            else Scheduled(n, slots, next, rest, after, outcome)
  {
    var done, rest := inFlight[j], inFlight[..j] + inFlight[j + 1..];
    var after := results + [Item(done, outcome(done))];
    assert Keys(after) == Keys(results) + [done];
    WithoutElement(inFlight, j);
    assert Range(0, next + 1) == Range(0, next) + [next];
  }

  // ----- Sorting the results -----

  /** `sort_by_key(|item| item.index)`, by insertion. */
  method SortByKey(items: seq<Item>) returns (sorted: seq<Item>)
    ensures SortedByIndex(sorted) && multiset(sorted) == multiset(items)
  {
    sorted := [];
    for i := 0 to |items|
      invariant SortedByIndex(sorted) && multiset(sorted) == multiset(items[..i])
    {
      assert items[..i + 1] == items[..i] + [items[i]];
      sorted := InsertByKey(sorted, items[i]);
    }
    assert items[..|items|] == items;
  }

  method InsertByKey(sorted: seq<Item>, x: Item) returns (r: seq<Item>)
    requires SortedByIndex(sorted)
    ensures SortedByIndex(r) && multiset(r) == multiset(sorted) + multiset{x}
  {
    var k := |sorted|;
    while k > 0 && sorted[k - 1].index > x.index
      invariant 0 <= k <= |sorted|
      invariant forall j :: k <= j < |sorted| ==> x.index < sorted[j].index
    {
      k := k - 1;
    }
    InsertedInOrder(sorted, x, k);
    r := sorted[..k] + [x] + sorted[k..];
  }

  lemma InsertedInOrder(sorted: seq<Item>, x: Item, k: nat)
    requires SortedByIndex(sorted) && k <= |sorted|
    requires k > 0 ==> sorted[k - 1].index <= x.index
    requires forall j :: k <= j < |sorted| ==> x.index < sorted[j].index
    ensures var r := sorted[..k] + [x] + sorted[k..];
            SortedByIndex(r) && multiset(r) == multiset(sorted) + multiset{x}
  {
    InsertedElement(sorted, x, k);
    OrderedAround(sorted, x, k);
  }

  lemma OrderedAround(sorted: seq<Item>, x: Item, k: nat)
    requires SortedByIndex(sorted) && k <= |sorted|
    requires k > 0 ==> sorted[k - 1].index <= x.index
    requires forall j :: k <= j < |sorted| ==> x.index < sorted[j].index
    ensures SortedByIndex(sorted[..k] + [x] + sorted[k..])
  {
    var r := sorted[..k] + [x] + sorted[k..];
    forall i, j | 0 <= i < j < |r| ensures r[i].index <= r[j].index {
      var left := if i < k then sorted[i] else if i == k then x else sorted[i - 1];
      var right := if j < k then sorted[j] else if j == k then x else sorted[j - 1];
      assert r[i] == left && r[j] == right;
    }
  }

  /** Sorting the results of all entries puts each in its place. */
  lemma InPlace(items: seq<Item>, sorted: seq<Item>, n: nat, outcome: nat -> bool)
    requires SortedByIndex(sorted) && multiset(sorted) == multiset(items)
    requires multiset(Keys(items)) == multiset(Range(0, n)) && Outcomes(items, outcome)
    ensures |sorted| == n && forall i :: 0 <= i < n ==> sorted[i] == Item(i, outcome(i))
  {
    SameKeys(items, sorted);
    SortedUnique(Keys(sorted), Range(0, n));
    forall i | 0 <= i < n ensures sorted[i] == Item(i, outcome(i)) {
      assert sorted[i] in multiset(sorted);
      assert sorted[i] in items;
      assert Keys(sorted)[i] == i;
    }
  }

  lemma {:induction false} SameKeys(a: seq<Item>, b: seq<Item>)
    requires multiset(a) == multiset(b)
    ensures multiset(Keys(a)) == multiset(Keys(b))
    decreases |a|
  {
    if a == [] {
      assert |multiset(b)| == 0;
    } else {
      var j := SameElement(a, b);
      var rest, other := a[..0] + a[1..], b[..j] + b[j + 1..];
      CancelElement(a, 0, b, j);
      KeysWithout(a, 0, rest);
      KeysWithout(b, j, other);
      SameKeys(rest, other);
    }
  }

  lemma SameElement(a: seq<Item>, b: seq<Item>) returns (j: nat)
    requires a != [] && multiset(a) == multiset(b)
    ensures j < |b| && b[j] == a[0]
  {
    assert a[0] in multiset(b);
    j :| j < |b| && b[j] == a[0];
  }

  lemma KeysWithout(items: seq<Item>, i: nat, rest: seq<Item>)
    requires i < |items| && rest == items[..i] + items[i + 1..]
    ensures multiset(Keys(items)) == multiset(Keys(rest)) + multiset{items[i].index}
  {
    WithoutElement(Keys(items), i);
    assert Keys(rest) == Keys(items)[..i] + Keys(items)[i + 1..];
  }

  // ----- Retry delays -----

  const U128_MAX: nat := 0xFFFF_FFFF_FFFF_FFFF_FFFF_FFFF_FFFF_FFFF
  const I128_MAX: nat := 0x7FFF_FFFF_FFFF_FFFF_FFFF_FFFF_FFFF_FFFF

  /** The largest number of milliseconds a `Duration` can hold. */
  const DURATION_MAX: nat := U64_MAX * 1000 + 999

  function SatMul128(a: nat, b: nat): nat {
    Min(a * b, U128_MAX)
  }

  /** The delay before jitter. */
  function BaseDelay(base: nat, max: Option<nat>, attempt: nat): nat {
    var delay := SatMul128(base, Pow2(Min(SaturatingSub(attempt, 1), 31)));
    if max.Some? then Min(delay, max.value) else delay
  }

  function JitterSpan(delay: nat, pct: nat): nat {
    SatMul128(delay, pct) / 100
  }

  /** The delay moved by an offset drawn from the clock. */
  function Adjusted(delay: nat, span: nat, entropy: nat): nat {
    if span == 0 then delay
    else
      var offset := entropy % Min(SatMul128(span, 2) + 1, U128_MAX) - span;
      if delay + offset < 0 then 0 else delay + offset
  }

  /** `retry_delay_for_attempt_core`, in milliseconds. */
  function RetryDelay(base: nat, max: Option<nat>, pct: nat, attempt: nat, entropy: nat): Option<nat> {
    var delay := BaseDelay(base, max, attempt);
    if delay == 0 then None
    else Some(Min(if pct == 0 then delay else Adjusted(delay, JitterSpan(delay, pct), entropy), U64_MAX))
  }

  /** The exponential part as documented: the base doubled per attempt up to 31 times, under
      the cap. */
  function DocumentedDelay(base: nat, max: Option<nat>, attempt: nat): nat {
    var delay := base * Pow2(Min(if attempt == 0 then 0 else attempt - 1, 31));
    if max.Some? then Min(delay, max.value) else delay
  }

  /** The widest jitter offset of a delay. */
  function Spread(delay: nat, pct: nat): nat {
    delay * pct / 100
  }

  lemma ProductMonotone(a: nat, b: nat, c: nat, d: nat)
    requires a <= c && b <= d
    ensures a * b <= c * d
  {
    assert a * b <= c * b;
    assert c * b <= c * d;
  }

  lemma Pow2Of31()
    ensures Pow2(31) == 0x8000_0000
  {
    assert Pow2(8) == 0x100;
    assert Pow2(16) == 0x1_0000;
    assert Pow2(24) == 0x100_0000;
  }

  /** For every duration and jitter percentage no saturating operation saturates, and
      neither the casts to `i128` nor the signed sum overflow. */
  lemma NeverSaturates(base: nat, max: Option<nat>, pct: nat, attempt: nat)
    requires base <= DURATION_MAX && pct <= 255
    ensures BaseDelay(base, max, attempt) == DocumentedDelay(base, max, attempt)
    ensures JitterSpan(BaseDelay(base, max, attempt), pct) == Spread(DocumentedDelay(base, max, attempt), pct)
    ensures 2 * Spread(DocumentedDelay(base, max, attempt), pct) + 1 < U128_MAX
    ensures var d := DocumentedDelay(base, max, attempt);
            d + Spread(d, pct) <= I128_MAX && 2 * Spread(d, pct) <= I128_MAX
  {
    var e := Min(SaturatingSub(attempt, 1), 31);
    Pow2Monotone(e, 31);
    Pow2Of31();
    ProductMonotone(base, Pow2(e), DURATION_MAX, 0x8000_0000);
    var delay := DocumentedDelay(base, max, attempt);
    ProductMonotone(delay, pct, DURATION_MAX * 0x8000_0000, 255);
  }

  /** Later attempts never wait less before jitter. */
  lemma BackoffGrows(base: nat, max: Option<nat>, attempt: nat, later: nat)
    requires attempt <= later
    ensures BaseDelay(base, max, attempt) <= BaseDelay(base, max, later)
  {
    var e, f := Min(SaturatingSub(attempt, 1), 31), Min(SaturatingSub(later, 1), 31);
    Pow2Monotone(e, f);
    ProductMonotone(base, Pow2(e), base, Pow2(f));
  }

  /** Up to attempt 32 an uncapped delay doubles each time. */
  lemma BackoffDoubles(base: nat, attempt: nat)
    requires base <= DURATION_MAX && 1 <= attempt <= 31
    ensures BaseDelay(base, None, attempt + 1) == 2 * BaseDelay(base, None, attempt)
  {
    NeverSaturates(base, None, 0, attempt);
    NeverSaturates(base, None, 0, attempt + 1);
    DoubledProduct(base, attempt - 1);
  }

  /** An entry waits after a failed attempt exactly when a nonzero base is configured,
      whatever its cap. */
  lemma WaitsExactlyWhen(e: Retrying, attempt: nat, entropy: nat)
    requires e.base.Some? ==> e.base.value <= DURATION_MAX
    requires e.pct <= 255
    ensures WaitAfter(e, attempt, entropy).Some? <==> e.base.Some? && e.base.value > 0
  {
    var base, max := Positive(e.base), Positive(e.max);
    if base.Some? {
      NeverSaturates(base.value, max, e.pct, attempt);
      ProductMonotone(1, 1, base.value, Pow2(Min(SaturatingSub(attempt, 1), 31)));
    }
  }

  /** The wait after the given attempt lies within the jitter spread of that attempt's
      documented delay, a zero cap meaning none. */
  predicate WithinSpread(e: Retrying, attempt: nat, wait: nat)
    requires e.base.Some?
  {
    var d := DocumentedDelay(e.base.value, if e.max == Some(0) then None else e.max, attempt);
    Min(SaturatingSub(d, Spread(d, e.pct)), U64_MAX) <= wait <= Min(d + Spread(d, e.pct), U64_MAX)
  }

  /** Every wait is around the delay of the attempt it follows. */
  lemma WaitInSpread(e: Retrying, attempt: nat, entropy: nat)
    requires e.base.Some? && 0 < e.base.value <= DURATION_MAX && e.pct <= 255
    ensures var wait := WaitAfter(e, attempt, entropy);
            wait.Some? && WithinSpread(e, attempt, wait.value)
  {
    var base, max := e.base.value, Positive(e.max);
    WaitsExactlyWhen(e, attempt, entropy);
    NeverSaturates(base, max, e.pct, attempt);
    JitterApplied(base, max, e.pct, attempt, entropy);
  }

  /** The waits of an entry, in order: one for each failed attempt, that attempt's own; none
      without a nonzero base. */
  lemma WaitsInOrder(e: Retrying, entropy: nat -> nat, n: nat)
    requires e.base.Some? ==> e.base.value <= DURATION_MAX
    requires e.pct <= 255
    ensures var wait := WaitFor(e, entropy);
            if e.base.None? || e.base.value == 0 then Waits(wait, n) == []
            else |Waits(wait, n)| == n && forall i: nat :: i < n ==> wait(i + 1) == Some(Waits(wait, n)[i])
  {
    AlwaysOrNever(e, entropy);
    AllOrNone(WaitFor(e, entropy), e.base.Some? && e.base.value > 0, n);
  }

  lemma AlwaysOrNever(e: Retrying, entropy: nat -> nat)
    requires e.base.Some? ==> e.base.value <= DURATION_MAX
    requires e.pct <= 255
    ensures forall k: nat :: WaitFor(e, entropy)(k).Some? == (e.base.Some? && e.base.value > 0)
  {
    forall k: nat ensures WaitFor(e, entropy)(k).Some? == (e.base.Some? && e.base.value > 0) {
      WaitsExactlyWhen(e, k, entropy(k));
    }
  }

  lemma {:induction false} AllOrNone(wait: nat -> Option<nat>, all: bool, n: nat)
    requires forall k: nat :: wait(k).Some? == all
    ensures if all then |Waits(wait, n)| == n && forall i: nat :: i < n ==> wait(i + 1) == Some(Waits(wait, n)[i])
            else Waits(wait, n) == []
  {
    if n > 0 {
      AllOrNone(wait, all, n - 1);
    }
  }

  ghost predicate Reachable(base: nat, max: Option<nat>, pct: nat, attempt: nat, delay: nat) {
    exists entropy: nat :: entropy <= U128_MAX && RetryDelay(base, max, pct, attempt, entropy) == Some(delay)
  }

  /** Over all clock readings the waits are exactly the delays within the jitter spread,
      clamped to zero and to the widest 64-bit count. */
  lemma DelayRange(base: nat, max: Option<nat>, pct: nat, attempt: nat, wait: nat)
    requires base <= DURATION_MAX && pct <= 255
    ensures var d := DocumentedDelay(base, max, attempt);
            Reachable(base, max, pct, attempt, wait) <==>
            d > 0 && Min(SaturatingSub(d, Spread(d, pct)), U64_MAX) <= wait <= Min(d + Spread(d, pct), U64_MAX)
  {
    NeverSaturates(base, max, pct, attempt);
    var d := DocumentedDelay(base, max, attempt);
    var s := Spread(d, pct);
    if d > 0 {
      forall entropy: nat ensures RetryDelay(base, max, pct, attempt, entropy) == Some(Jittered(d, s, entropy)) {
        JitterApplied(base, max, pct, attempt, entropy);
      }
      if Min(SaturatingSub(d, s), U64_MAX) <= wait <= Min(d + s, U64_MAX) {
        var entropy := EntropyFor(d, s, wait);
        assert RetryDelay(base, max, pct, attempt, entropy) == Some(Jittered(d, s, entropy));
      }
    }
  }

  function Jittered(delay: nat, spread: nat, entropy: nat): nat {
    Shifted(delay, spread, entropy % (2 * spread + 1))
  }

  function Shifted(delay: nat, spread: nat, shift: nat): nat {
    Min(SaturatingSub(delay + shift, spread), U64_MAX)
  }

  lemma JitterApplied(base: nat, max: Option<nat>, pct: nat, attempt: nat, entropy: nat)
    requires base <= DURATION_MAX && pct <= 255 && DocumentedDelay(base, max, attempt) > 0
    ensures var d := DocumentedDelay(base, max, attempt);
            RetryDelay(base, max, pct, attempt, entropy) == Some(Jittered(d, Spread(d, pct), entropy))
  {
    NeverSaturates(base, max, pct, attempt);
    var d := DocumentedDelay(base, max, attempt);
    ShiftIsJitter(d, Spread(d, pct), entropy);
    assert pct == 0 ==> Spread(d, pct) == 0;
  }

  lemma ShiftIsJitter(d: nat, s: nat, entropy: nat)
    requires 2 * s + 1 < U128_MAX
    ensures Min(Adjusted(d, s, entropy), U64_MAX) == Jittered(d, s, entropy)
  {
    assert SatMul128(s, 2) == 2 * s;
    assert s == 0 ==> entropy % 1 == 0;
  }

  lemma EntropyFor(d: nat, s: nat, wait: nat) returns (entropy: nat)
    requires 2 * s + 1 < U128_MAX
    requires Min(SaturatingSub(d, s), U64_MAX) <= wait <= Min(d + s, U64_MAX)
    ensures entropy <= U128_MAX && Jittered(d, s, entropy) == wait
  {
    entropy := if wait < U64_MAX then SaturatingSub(wait + s, d) else 2 * s;
    assert Shifted(d, s, entropy) == wait;
    SmallRemainder(entropy, 2 * s + 1);
  }

  lemma SmallRemainder(x: nat, m: nat)
    requires x < m
    ensures x % m == x
  {
  }
}
