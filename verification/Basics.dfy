/** Small shared vocabulary: optional values, bytes and fixed-width integers. */
module Basics {

  datatype Option<+T> = None | Some(value: T)

  type Byte = x: int | 0 <= x < 256

  const U32_LIMIT: nat := 0x1_0000_0000
  const U64_MAX: nat := 0xFFFF_FFFF_FFFF_FFFF

  /** The value a `u32` operation leaves behind in a build without overflow checks. */
  function Wrap32(x: nat): (r: nat)
    ensures r < U32_LIMIT
    ensures x < U32_LIMIT ==> r == x
    ensures U32_LIMIT <= x < 2 * U32_LIMIT ==> r == x - U32_LIMIT
  {
    x % U32_LIMIT
  }

  function Min(a: nat, b: nat): nat {
    if a <= b then a else b
  }

  function Max(a: nat, b: nat): nat {
    if a <= b then b else a
  }

  /** `u64::saturating_add`. */
  function SaturatingAdd64(a: nat, b: nat): nat {
    Min(a + b, U64_MAX)
  }

  /** `u64::saturating_sub`. */
  function SaturatingSub(a: nat, b: nat): nat {
    if a < b then 0 else a - b
  }

  /** The half-open integer range `lo..hi`, empty when `hi <= lo`. */
  function Range(lo: nat, hi: nat): (s: seq<nat>)
    ensures |s| == SaturatingSub(hi, lo)
    ensures forall i :: 0 <= i < |s| ==> s[i] == lo + i
  {
    seq(SaturatingSub(hi, lo), i => lo + i)
  }

  // ----- Powers of two -----

  function Pow2(e: nat): (p: nat)
    ensures p >= 1
  {
    if e == 0 then 1 else 2 * Pow2(e - 1)
  }

  lemma DoubledProduct(x: nat, e: nat)
    ensures x * Pow2(e + 1) == 2 * (x * Pow2(e))
  {
    var p := Pow2(e);
    assert x * (2 * p) == 2 * (x * p);
  }

  lemma {:induction false} Pow2Monotone(a: nat, b: nat)
    requires a <= b
    ensures Pow2(a) <= Pow2(b)
  {
    if a < b {
      Pow2Monotone(a, b - 1);
    }
  }

  // ----- Sequences of numbers -----

  predicate NoDuplicates(s: seq<nat>) {
    forall i, j :: 0 <= i < j < |s| ==> s[i] != s[j]
  }

  function ToSet(s: seq<nat>): set<nat> {
    set x | x in s
  }

  lemma {:induction false} DistinctSize(s: seq<nat>)
    ensures |ToSet(s)| <= |s|
    ensures |ToSet(s)| == |s| <==> NoDuplicates(s)
  {
    if s != [] {
      var init, x := s[..|s| - 1], s[|s| - 1];
      DistinctSize(init);
      assert s == init + [x];
      assert ToSet(s) == ToSet(init) + {x};
      if x in init {
        var i :| 0 <= i < |init| && init[i] == x;
        assert s[i] == s[|s| - 1];
        assert ToSet(s) == ToSet(init);
      } else if NoDuplicates(init) {
        assert NoDuplicates(s);
      } else {
        var i, j :| 0 <= i < j < |init| && init[i] == init[j];
        assert s[i] == s[j];
      }
    }
  }

  lemma {:induction false} DistinctCounts(s: seq<nat>)
    requires NoDuplicates(s)
    ensures forall x: nat :: multiset(s)[x] == if x in s then 1 else 0
  {
    if s != [] {
      var init, x := s[..|s| - 1], s[|s| - 1];
      DistinctCounts(init);
      assert s == init + [x];
      assert multiset(s) == multiset(init) + multiset{x};
    }
  }

  lemma {:induction false} StrictlyIncreasingBelow(s: seq<nat>, lo: nat, i: nat)
    requires i < |s|
    requires forall j, k :: 0 <= j < k < |s| ==> s[j] < s[k]
    requires forall j :: 0 <= j < |s| ==> lo <= s[j]
    ensures lo + i <= s[i]
  {
    if i > 0 {
      StrictlyIncreasingBelow(s, lo, i - 1);
    }
  }

  predicate Sorted(s: seq<nat>) {
    forall i, j :: 0 <= i < j < |s| ==> s[i] <= s[j]
  }

  /** Sorting determines the order. */
  lemma {:induction false} SortedUnique(a: seq<nat>, b: seq<nat>)
    requires Sorted(a) && Sorted(b) && multiset(a) == multiset(b)
    ensures a == b
  {
    if a == [] {
      assert |multiset(b)| == 0;
    } else {
      var n := |a| - 1;
      LastIsMax(a, b);
      LastIsMax(b, a);
      var m := |b| - 1;
      CancelElement(a, n, b, m);
      assert a[..n] + a[n + 1..] == a[..n] && b[..m] + b[m + 1..] == b[..m];
      SortedUnique(a[..n], b[..m]);
      assert a == a[..n] + [a[n]] && b == b[..m] + [b[m]];
    }
  }

  /** Removing equal elements keeps sequences permutations of each other. */
  lemma CancelElement<T>(a: seq<T>, i: nat, b: seq<T>, j: nat)
    requires i < |a| && j < |b| && a[i] == b[j] && multiset(a) == multiset(b)
    ensures multiset(a[..i] + a[i + 1..]) == multiset(b[..j] + b[j + 1..])
  {
    WithoutElement(a, i);
    WithoutElement(b, j);
    var rest, other := multiset(a[..i] + a[i + 1..]), multiset(b[..j] + b[j + 1..]);
    assert rest == (rest + multiset{a[i]}) - multiset{a[i]};
    assert other == (other + multiset{a[i]}) - multiset{a[i]};
  }

  lemma WithoutElement<T>(s: seq<T>, i: nat)
    requires i < |s|
    ensures multiset(s) == multiset(s[..i] + s[i + 1..]) + multiset{s[i]}
  {
    assert s == s[..i] + [s[i]] + s[i + 1..];
  }

  lemma InsertedElement<T>(s: seq<T>, x: T, k: nat)
    requires k <= |s|
    ensures multiset(s[..k] + [x] + s[k..]) == multiset(s) + multiset{x}
  {
    var r := s[..k] + [x] + s[k..];
    WithoutElement(r, k);
    assert r[..k] + r[k + 1..] == s;
  }

  lemma LastIsMax(a: seq<nat>, b: seq<nat>)
    requires a != [] && Sorted(b) && multiset(a) == multiset(b)
    ensures b != [] && a[|a| - 1] <= b[|b| - 1]
  {
    assert a[|a| - 1] in multiset(b);
    var i :| 0 <= i < |b| && b[i] == a[|a| - 1];
  }
}
