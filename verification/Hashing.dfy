/** Byte strings in which a digest byte is symbolic: the i-th byte of a named
    hash output. Equal digests then have equal inputs, which is what "no
    collision" means, and every length, slice and concatenation stays a plain
    byte string. */
module Hashing {
  import opened BigEndian


  datatype Cell = Octet(value: octet) | Digest(term: Term, index: nat)

  type Bytes = seq<Cell>

  /** What was hashed: a BLAKE3 chunk or parent, as chaining value or as root,
      and a SHA-256 input. */
  datatype Term =
    | Chunk(data: Bytes, counter: nat)
    | Parent(left: Bytes, right: Bytes)
    | RootChunk(data: Bytes)
    | RootParent(left: Bytes, right: Bytes)
    | Sha(data: Bytes)

  const HASH := 32

  /** The 32 bytes of a hash output. */
  function Output(t: Term): (r: Bytes)
    ensures |r| == HASH
  {
    seq(HASH, (i: nat) => Digest(t, i))
  }

  lemma OutputInjective(s: Term, t: Term)
    requires Output(s) == Output(t)
    ensures s == t
  {
    assert Output(s)[0] == Output(t)[0];
  }

  function Zeros(n: nat): (r: Bytes)
    ensures |r| == n
  {
    seq(n, i => Octet(0))
  }

  // ----- slices with the program's clamping

  /** One slice bound: negative bounds count from the end, and both clamp. */
  function Bound(i: int, n: nat): (r: nat)
    ensures r <= n
    ensures 0 <= i ==> r == if i <= n then i else n
  {
    if i < 0 then (if i + n < 0 then 0 else i + n) else if i <= n then i else n
  }

  function Slice<T>(data: seq<T>, lo: int, hi: int): (r: seq<T>)
    ensures 0 <= lo <= hi <= |data| ==> r == data[lo..hi]
  {
    var l, h := Bound(lo, |data|), Bound(hi, |data|);
    if l <= h then data[l..h] else []
  }

  lemma SliceLength<T>(data: seq<T>, lo: nat, hi: nat)
    requires lo <= hi
    ensures |Slice(data, lo, hi)| == Bound(hi, |data|) - Bound(lo, |data|)
  {
  }

  lemma SubSlice<T>(data: seq<T>, part: seq<T>, offset: nat, lo: nat, hi: nat)
    requires offset + |part| <= |data| && part == data[offset..offset + |part|] && lo <= hi <= |part|
    ensures part[lo..hi] == data[offset + lo..offset + hi]
  {
    assert forall i :: lo <= i < hi ==> part[i] == data[offset + i];
  }
}
