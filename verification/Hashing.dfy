/** Page and group digests (src/hash.rs).  The digest itself is a parameter: any
    function to 32 bytes.  What the protocol needs of it is stated where it is used. */
module Hashing {
  import opened Basics

  type Page = seq<Byte>

  type Hash = h: seq<Byte> | |h| == 32 witness seq(32, _ => 0)

  datatype Algorithm = Sha256V1 | Blake3V2

  type Digest = (Algorithm, seq<Byte>) -> Hash

  function FromProtocolVersion(version: nat): Option<Algorithm> {
    match version
    case 1 => Some(Sha256V1)
    case 2 => Some(Blake3V2)
    case _ => None
  }

  function Concat(hs: seq<Hash>): seq<Byte> {
    if hs == [] then [] else hs[0] + Concat(hs[1..])
  }

  function HashPages(d: Digest, alg: Algorithm, pages: seq<Page>): (hs: seq<Hash>)
    ensures |hs| == |pages|
    ensures forall i :: 0 <= i < |pages| ==> hs[i] == d(alg, pages[i])
  {
    seq(|pages|, i requires 0 <= i < |pages| => d(alg, pages[i]))
  }

  function HashGroup(d: Digest, alg: Algorithm, hs: seq<Hash>): Hash {
    d(alg, Concat(hs))
  }

  lemma {:induction false} ConcatAppend(hs: seq<Hash>, h: Hash)
    ensures Concat(hs + [h]) == Concat(hs) + h
  {
    if hs == [] {
      assert [h][1..] == [];
    } else {
      assert (hs + [h])[1..] == hs[1..] + [h];
      ConcatAppend(hs[1..], h);
    }
  }

  /** Feeding the digest one page hash at a time hashes their concatenation. */
  method HashGroupFor(d: Digest, alg: Algorithm, hs: seq<Hash>) returns (h: Hash)
    ensures h == HashGroup(d, alg, hs)
  {
    var fed: seq<Byte> := [];
    for i := 0 to |hs|
      invariant fed == Concat(hs[..i])
    {
      assert hs[..i + 1] == hs[..i] + [hs[i]];
      ConcatAppend(hs[..i], hs[i]);
      fed := fed + hs[i];
    }
    assert hs[..|hs|] == hs;
    h := d(alg, fed);
  }

  /** Because every page hash has 32 bytes, the concatenation determines the list. */
  lemma {:induction false} ConcatInjective(a: seq<Hash>, b: seq<Hash>)
    requires Concat(a) == Concat(b)
    ensures a == b
  {
    if a != [] && b != [] {
      assert Concat(a)[..32] == a[0] && Concat(b)[..32] == b[0];
      assert Concat(a)[32..] == Concat(a[1..]) && Concat(b)[32..] == Concat(b[1..]);
      ConcatInjective(a[1..], b[1..]);
      assert a == [a[0]] + a[1..] && b == [b[0]] + b[1..];
    }
  }
}
