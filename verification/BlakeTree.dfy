/** The BLAKE3 tree over 1 KiB chunks, and the same tree grouped at 64 KiB
    (section 2.1 of the BLAKE3 specification). */
module BlakeTree {
  import opened Powers
  import opened Hashing

  const CHUNK := 1024
  const GROUP := 65536

  /** 1 KiB chunks that `length` bytes fill, at least one. */
  function Chunks(length: nat): (r: nat)
    ensures r >= 1 && (length == 0 ==> r == 1)
    ensures length > 0 ==> (r - 1) * 1024 < length <= r * 1024
  {
    var n := CeilDiv(length, CHUNK);
    if n < 1 then 1 else n
  }

  /** 64 KiB groups that `length` bytes fill, at least one. */
  function Groups(length: nat): (r: nat)
    ensures r >= 1 && (length == 0 ==> r == 1)
    ensures length > 0 ==> (r - 1) * 65536 < length <= r * 65536
  {
    var n := CeilDiv(length, GROUP);
    if n < 1 then 1 else n
  }

  /** The largest power of two below `count`: the left side of a split. */
  function SplitCount(count: nat): (r: nat)
    requires count >= 2
    ensures 0 < r < count <= 2 * r
  {
    BitLengthBounds(count - 1);
    Pow2(BitLength(count - 1) - 1)
  }

  lemma SplitUnique(count: nat, m: nat)
    requires count >= 2 && Pow2(m) < count <= 2 * Pow2(m)
    ensures SplitCount(count) == Pow2(m)
  {
    BitLengthUnique(count, m + 1);
  }

  /** Splitting by chunks is splitting by groups, 64 chunks to a group. */
  lemma SplitScales(groups: nat, chunks: nat)
    requires groups >= 2 && 64 * (groups - 1) < chunks <= 64 * groups
    ensures chunks >= 2 && SplitCount(chunks) == 64 * SplitCount(groups)
  {
    hide Pow2, BitLength;
    var m := BitLength(groups - 1) - 1;
    BitLengthBounds(groups - 1);
    Pow2Sum(6, m);
    Pow2At6();
    Pow2Next(m);
    SplitUnique(chunks, 6 + m);
  }

  lemma Pow2At6()
    ensures Pow2(6) == 64
  {
  }

  // ----- the chunk tree

  function SubtreeCv(data: Bytes, start: nat): (r: Bytes)
    ensures |r| == HASH
    decreases |data|
  {
    var count := Chunks(|data|);
    if count == 1 then Output(Chunk(data, start)) else
      var left := SplitCount(count);
      var boundary := left * CHUNK;
      Output(Parent(SubtreeCv(data[..boundary], start), SubtreeCv(data[boundary..], start + left)))
  }

  function Blake3Hash(data: Bytes): (r: Bytes)
    ensures |r| == HASH
  {
    var count := Chunks(|data|);
    if count == 1 then Output(RootChunk(data)) else
      var left := SplitCount(count);
      var boundary := left * CHUNK;
      Output(RootParent(SubtreeCv(data[..boundary], 0), SubtreeCv(data[boundary..], left)))
  }

  /** The tree commits to its bytes and to where they start. */
  lemma {:induction false} SubtreeInjective(a: Bytes, s: nat, b: Bytes, t: nat)
    requires SubtreeCv(a, s) == SubtreeCv(b, t)
    ensures a == b && s == t
    decreases |a|
  {
    hide Output, Chunks, SplitCount;
    var m, n := Chunks(|a|), Chunks(|b|);
    OutputInjective(SubtreeTerm(a, s), SubtreeTerm(b, t));
    if m > 1 {
      var l, r := SplitCount(m) * CHUNK, SplitCount(n) * CHUNK;
      SubtreeInjective(a[..l], s, b[..r], t);
      SubtreeInjective(a[l..], s + SplitCount(m), b[r..], t + SplitCount(n));
      assert a == a[..l] + a[l..] && b == b[..r] + b[r..];
    }
  }

  ghost function SubtreeTerm(data: Bytes, start: nat): (t: Term)
    ensures SubtreeCv(data, start) == Output(t)
    ensures t.Chunk? <==> Chunks(|data|) == 1
  {
    var count := Chunks(|data|);
    if count == 1 then Chunk(data, start) else
      var left := SplitCount(count);
      Parent(SubtreeCv(data[..left * CHUNK], start), SubtreeCv(data[left * CHUNK..], start + left))
  }

  // ----- reading the tree back from its digest

  /** The chunks a digest was made from, left to right, each with its counter. */
  ghost function ChunksUnder(t: Term): seq<(Bytes, nat)> {
    match t
    case Chunk(data, counter) => [(data, counter)]
    case RootChunk(data) => [(data, 0)]
    case Parent(left, right) => Below(t, left) + Below(t, right)
    case RootParent(left, right) => Below(t, left) + Below(t, right)
    case Sha(_) => []
  }

  ghost function Below(t: Term, cv: Bytes): seq<(Bytes, nat)>
    requires cv != [] && cv[0].Digest? ==> cv[0].term < t
    decreases t, 0
  {
    if cv != [] && cv[0].Digest? then ChunksUnder(cv[0].term) else []
  }

  /** At every parent the left side is full, a power of two of chunks, and the
      right side has no more. */
  ghost predicate LeftFull(t: Term) {
    match t
    case Parent(left, right) => FullBeside(t, left, right)
    case RootParent(left, right) => FullBeside(t, left, right)
    case _ => true
  }

  ghost predicate FullBeside(t: Term, left: Bytes, right: Bytes)
    requires left != [] && left[0].Digest? ==> left[0].term < t
    requires right != [] && right[0].Digest? ==> right[0].term < t
    decreases t, 0
  {
    && left != [] && left[0].Digest? && right != [] && right[0].Digest?
    && (exists e :: |Below(t, left)| == Pow2(e)) && |Below(t, right)| <= |Below(t, left)|
    && LeftFull(left[0].term) && LeftFull(right[0].term)
  }

  /** The 1 KiB chunks of some bytes, numbered from `start`. */
  ghost function Numbered(data: Bytes, start: nat): seq<(Bytes, nat)>
    decreases |data|
  {
    if |data| <= CHUNK then [(data, start)] else [(data[..CHUNK], start)] + Numbered(data[CHUNK..], start + 1)
  }

  lemma {:induction false} NumberedCount(data: Bytes, start: nat)
    ensures |Numbered(data, start)| == Chunks(|data|)
    decreases |data|
  {
    if |data| > CHUNK { NumberedCount(data[CHUNK..], start + 1); }
  }

  lemma {:induction false} NumberedSplit(data: Bytes, start: nat, left: nat)
    requires 0 < left && left * CHUNK < |data|
    ensures Numbered(data, start) == Numbered(data[..left * CHUNK], start) + Numbered(data[left * CHUNK..], start + left)
    decreases left
  {
    if left > 1 {
      var rest := data[CHUNK..];
      NumberedSplit(rest, start + 1, left - 1);
      assert data[..left * CHUNK][CHUNK..] == rest[..(left - 1) * CHUNK];
      assert data[left * CHUNK..] == rest[(left - 1) * CHUNK..];
      assert data[..left * CHUNK][..CHUNK] == data[..CHUNK];
    }
  }

  /** Where a node of several chunks splits. */
  lemma SplitFull(length: nat)
    requires Chunks(length) > 1
    ensures var left := SplitCount(Chunks(length));
            && 0 < left && left * CHUNK < length && Chunks(left * CHUNK) == left
            && Chunks(length - left * CHUNK) == Chunks(length) - left <= left
            && exists e :: left == Pow2(e)
  {
    var count := Chunks(length);
    var left := SplitCount(count);
    BitLengthBounds(count - 1);
    assert left == Pow2(BitLength(count - 1) - 1);
  }

  /** A subtree's digest gives back its bytes chunk by chunk, in order, numbered
      from where it starts, out of a tree full on the left. */
  lemma {:induction false} SubtreeReadsBack(data: Bytes, start: nat)
    ensures ChunksUnder(SubtreeTerm(data, start)) == Numbered(data, start) && LeftFull(SubtreeTerm(data, start))
    decreases |data|
  {
    if Chunks(|data|) > 1 {
      SplitReadsBack(data, start);
    }
  }

  lemma {:induction false} SplitReadsBack(data: Bytes, start: nat)
    requires Chunks(|data|) > 1
    ensures var left := SplitCount(Chunks(|data|));
            var l, r := SubtreeTerm(data[..left * CHUNK], start), SubtreeTerm(data[left * CHUNK..], start + left);
            && ChunksUnder(l) + ChunksUnder(r) == Numbered(data, start) && LeftFull(l) && LeftFull(r)
            && (exists e :: |ChunksUnder(l)| == Pow2(e)) && |ChunksUnder(r)| <= |ChunksUnder(l)|
    decreases |data|, 0
  {
    hide Chunks, SplitCount, Pow2, SubtreeTerm, ChunksUnder, LeftFull;
    SplitFull(|data|);
    var left := SplitCount(Chunks(|data|));
    var l, r := data[..left * CHUNK], data[left * CHUNK..];
    SubtreeReadsBack(l, start);
    SubtreeReadsBack(r, start + left);
    NumberedSplit(data, start, left);
    NumberedCount(l, start);
    NumberedCount(r, start + left);
  }

  ghost function RootTerm(data: Bytes): (t: Term)
    ensures Blake3Hash(data) == Output(t)
  {
    var count := Chunks(|data|);
    if count == 1 then RootChunk(data) else
      var left := SplitCount(count);
      RootParent(SubtreeCv(data[..left * CHUNK], 0), SubtreeCv(data[left * CHUNK..], left))
  }

  /** The hash is a root, and reads back as the object's chunks numbered from zero. */
  lemma HashReadsBack(data: Bytes)
    ensures ChunksUnder(RootTerm(data)) == Numbered(data, 0) && LeftFull(RootTerm(data))
    ensures RootTerm(data).RootChunk? || RootTerm(data).RootParent?
  {
    hide SubtreeTerm;
    if Chunks(|data|) > 1 { SplitReadsBack(data, 0); }
  }

  // ----- the group tree

  function Group(data: Bytes, index: nat): Bytes {
    Slice(data, index * GROUP, index * GROUP + GROUP)
  }

  function GroupCv(data: Bytes, index: nat): (r: Bytes)
    ensures |r| == HASH
  {
    SubtreeCv(Group(data, index), index * 64)
  }

  function NodeCv(data: Bytes, start: nat, count: nat): (r: Bytes)
    requires count > 0
    ensures |r| == HASH
    decreases count
  {
    if count == 1 then GroupCv(data, start) else
      var left := SplitCount(count);
      Output(Parent(NodeCv(data, start, left), NodeCv(data, start + left, count - left)))
  }

  /** The bytes under a node. */
  function Under(data: Bytes, start: nat, count: nat): Bytes {
    Slice(data, start * GROUP, (start + count) * GROUP)
  }

  lemma UnderSplit(data: Bytes, start: nat, count: nat, left: nat)
    requires 0 < left < count && (start + count - 1) * GROUP < |data|
    ensures |Under(data, start, count)| > (count - 1) * GROUP
    ensures |Under(data, start, count)| <= count * GROUP
    ensures Under(data, start, left) == Under(data, start, count)[..left * GROUP]
    ensures Under(data, start + left, count - left) == Under(data, start, count)[left * GROUP..]
  {
    var lo, mid, hi := start * GROUP, (start + left) * GROUP, Bound((start + count) * GROUP, |data|);
    assert lo <= mid <= hi && mid - lo == left * GROUP;
    assert Under(data, start, count) == data[lo..hi];
    assert Under(data, start, left) == data[lo..mid];
    assert Under(data, start + left, count - left) == data[mid..hi];
    CutAt(data, lo, mid, hi);
  }

  lemma CutAt(data: Bytes, lo: nat, mid: nat, hi: nat)
    requires lo <= mid <= hi <= |data|
    ensures data[lo..mid] == data[lo..hi][..mid - lo] && data[mid..hi] == data[lo..hi][mid - lo..]
  {
  }

  lemma UnderAll(data: Bytes)
    ensures Under(data, 0, Groups(|data|)) == data
  {
  }

  lemma SubtreeSplit(data: Bytes, start: nat, left: nat)
    requires Chunks(|data|) > 1 && SplitCount(Chunks(|data|)) == 64 * left
    ensures left * GROUP <= |data|
    ensures SubtreeCv(data, start) ==
            Output(Parent(SubtreeCv(data[..left * GROUP], start), SubtreeCv(data[left * GROUP..], start + 64 * left)))
    ensures Blake3Hash(data) ==
            Output(RootParent(SubtreeCv(data[..left * GROUP], 0), SubtreeCv(data[left * GROUP..], 64 * left)))
  {
    hide SplitCount, Output;
  }

  lemma NodeUnfold(data: Bytes, start: nat, count: nat)
    requires count > 0
    ensures count == 1 ==> NodeCv(data, start, count) == GroupCv(data, start) == SubtreeCv(Under(data, start, 1), start * 64)
    ensures count > 1 ==>
              var left := SplitCount(count);
              NodeCv(data, start, count) ==
              Output(Parent(NodeCv(data, start, left), NodeCv(data, start + left, count - left)))
  {
    hide Output, SubtreeCv, SplitCount;
    assert (start + 1) * GROUP == start * GROUP + GROUP;
  }

  /** Where every group under a node is present, the group tree is the chunk tree. */
  lemma {:induction false} NodeIsSubtree(data: Bytes, start: nat, count: nat)
    requires count > 0 && (start + count - 1) * GROUP < |data|
    ensures NodeCv(data, start, count) == SubtreeCv(Under(data, start, count), start * 64)
    decreases count
  {
    hide Output, Under, SubtreeCv, SplitCount, Chunks, NodeCv;
    NodeUnfold(data, start, count);
    if count > 1 {
      var left := SplitCount(count);
      UnderSplit(data, start, count, left);
      var bytes := Under(data, start, count);
      SplitScales(count, Chunks(|bytes|));
      SubtreeSplit(bytes, start * 64, left);
      NodeIsSubtree(data, start, left);
      NodeIsSubtree(data, start + left, count - left);
      assert (start + left) * 64 == start * 64 + 64 * left;
    }
  }

  /** The root hash of an object above one group is the root form of its top group node. */
  lemma RootIsTopNode(data: Bytes)
    requires Groups(|data|) > 1
    ensures var groups := Groups(|data|);
            var left := SplitCount(groups);
            Blake3Hash(data) == Output(RootParent(NodeCv(data, 0, left), NodeCv(data, left, groups - left)))
  {
    hide Output, SubtreeCv, SplitCount, Chunks, Groups, NodeCv, Blake3Hash;
    var groups := Groups(|data|);
    var left := SplitCount(groups);
    UnderAll(data);
    UnderSplit(data, 0, groups, left);
    hide Under;
    SplitScales(groups, Chunks(|data|));
    SubtreeSplit(data, 0, left);
    NodeIsSubtree(data, 0, left);
    NodeIsSubtree(data, left, groups - left);
  }
}
