/** BLAKE3 range proofs: the pre-order parent list a prover writes, and the two
    verifiers that read it back. */
module BlakeRange {
  import opened Wrappers
  import opened Powers
  import opened Hashing
  import opened BlakeTree

  /** Whether a node's groups meet the covered groups [first, end). */
  predicate Meets(first: int, end: int, start: int, count: int) {
    start < end && first < start + count
  }

  // ----- proving

  /** The parents a proof of groups [first, end) holds under one node, pre-order. */
  function ParentsUnder(data: Bytes, first: nat, end: nat, start: nat, count: nat): Bytes
    requires count > 0
    decreases count
  {
    if count == 1 then [] else
      var left := SplitCount(count);
      var right := start + left;
      NodeCv(data, start, left) + NodeCv(data, right, count - left)
      + (if Meets(first, end, start, left) then ParentsUnder(data, first, end, start, left) else [])
      + (if Meets(first, end, right, count - left) then ParentsUnder(data, first, end, right, count - left) else [])
  }

  function FirstGroup(offset: nat): nat {
    offset / GROUP
  }

  function EndGroup(offset: nat, length: nat): nat {
    CeilDiv(offset + length, GROUP)
  }

  /** The proof of a range. */
  function RangeProof(data: Bytes, offset: nat, length: nat): Bytes {
    if Groups(|data|) > 1
    then ParentsUnder(data, FirstGroup(offset), EndGroup(offset, length), 0, Groups(|data|))
    else []
  }

  method Visit(data: Bytes, first: nat, end: nat, start: nat, count: nat, written: Bytes) returns (proof: Bytes)
    requires count > 0
    ensures proof == written + ParentsUnder(data, first, end, start, count)
    decreases count
  {
    hide NodeCv, SplitCount, ParentsUnder;
    proof := written;
    WantedSize(data, first, end, start, count);
    if count == 1 { return; }
    ParentsAre(data, first, end, start, count);
    var left := SplitCount(count);
    var right := start + left;
    proof := proof + NodeCv(data, start, left);
    proof := proof + NodeCv(data, right, count - left);
    if Meets(first, end, start, left) {
      proof := Visit(data, first, end, start, left, proof);
    }
    if Meets(first, end, right, count - left) {
      proof := Visit(data, first, end, right, count - left, proof);
    }
    assert proof == written + (NodeCv(data, start, left) + NodeCv(data, right, count - left)
                    + (Wanted(data, first, end, start, left) + Wanted(data, first, end, right, count - left)));
  }

  method Prove(data: Bytes, offset: nat, length: nat) returns (proof: Bytes)
    ensures proof == RangeProof(data, offset, length)
  {
    proof := [];
    if Groups(|data|) > 1 {
      proof := Visit(data, FirstGroup(offset), EndGroup(offset, length), 0, Groups(|data|), proof);
    }
  }

  // ----- verifying

  /** A proof and the verifier's place in it. */
  class ProofReader {
    const proof: Bytes
    var cursor: nat

    constructor (proof: Bytes)
      ensures this.proof == proof && cursor == 0
    {
      this.proof := proof;
      cursor := 0;
    }

    method ReadParent() returns (pair: Option<(Bytes, Bytes)>)
      modifies this
      ensures pair == ParentAt(proof, old(cursor))
      ensures cursor == if pair.Some? then old(cursor) + 64 else old(cursor)
    {
      pair := ParentAt(proof, cursor);
      if pair.Some? { cursor := cursor + 64; }
    }
  }

  function ParentAt(proof: Bytes, cursor: nat): (r: Option<(Bytes, Bytes)>) {
    if cursor + 64 <= |proof| then Some((proof[cursor..cursor + 32], proof[cursor + 32..cursor + 64])) else None
  }

  /** What checking one child comes to: the next cursor, or a refusal. `leaf`
      gives the chaining value the verifier computes for a covered group. */
  function CheckChild(leaf: nat -> Bytes, first: nat, end: nat, proof: Bytes, cursor: nat,
                      start: nat, count: nat, expected: Bytes): (r: Option<nat>)
    requires count > 0
    decreases count
  {
    if !Meets(first, end, start, count) then Some(cursor)
    else if count == 1 then (if leaf(start) == expected then Some(cursor) else None)
    else
      match ParentAt(proof, cursor)
      case None => None
      case Some((l, r)) =>
        var left := SplitCount(count);
        match CheckChild(leaf, first, end, proof, cursor + 64, start, left, l)
        case None => None
        case Some(c) =>
          match CheckChild(leaf, first, end, proof, c, start + left, count - left, r)
          case None => None
          case Some(c') => if Output(Parent(l, r)) == expected then Some(c') else None
  }

  method VerifyChild(leaf: nat -> Bytes, first: nat, end: nat, reader: ProofReader,
                     start: nat, count: nat, expected: Bytes) returns (ok: bool)
    requires count > 0
    modifies reader
    ensures var r := CheckChild(leaf, first, end, reader.proof, old(reader.cursor), start, count, expected);
            ok == r.Some? && (ok ==> reader.cursor == r.value)
    decreases count
  {
    hide Output, SplitCount, ParentAt;
    if !Meets(first, end, start, count) { return true; }
    if count == 1 { return leaf(start) == expected; }
    var left := SplitCount(count);
    var pair := reader.ReadParent();
    if pair.None? { return false; }
    var (l, r) := pair.value;
    ok := VerifyChild(leaf, first, end, reader, start, left, l);
    if !ok { return; }
    ok := VerifyChild(leaf, first, end, reader, start + left, count - left, r);
    if !ok { return; }
    ok := Output(Parent(l, r)) == expected;
  }

  /** The top of either verifier, for a tree of more than one group. */
  predicate AcceptsTree(leaf: nat -> Bytes, root: Bytes, groups: nat, first: nat, end: nat, proof: Bytes)
    requires groups > 1
  {
    match ParentAt(proof, 0)
    case None => false
    case Some((l, r)) =>
      var left := SplitCount(groups);
      match CheckChild(leaf, first, end, proof, 64, 0, left, l)
      case None => false
      case Some(c) =>
        match CheckChild(leaf, first, end, proof, c, left, groups - left, r)
        case None => false
        case Some(c') => c' == |proof| && Output(RootParent(l, r)) == root
  }

  method VerifyTree(leaf: nat -> Bytes, root: Bytes, groups: nat, first: nat, end: nat, proof: Bytes) returns (ok: bool)
    requires groups > 1
    ensures ok == AcceptsTree(leaf, root, groups, first, end, proof)
  {
    hide CheckChild, SplitCount, Output;
    var reader := new ProofReader(proof);
    var left := SplitCount(groups);
    var pair := reader.ReadParent();
    if pair.None? { return false; }
    var (l, r) := pair.value;
    ok := VerifyChild(leaf, first, end, reader, 0, left, l);
    if !ok { return; }
    ok := VerifyChild(leaf, first, end, reader, left, groups - left, r);
    if !ok { return; }
    ok := reader.cursor == |proof| && Output(RootParent(l, r)) == root;
  }

  /** The chaining value of a covered group, out of the covered bytes. */
  function CoveredLeaf(offset: nat, covered: Bytes): nat -> Bytes {
    (g: nat) => SubtreeCv(Slice(covered, g * GROUP - offset, g * GROUP - offset + GROUP), g * 64)
  }

  /** `verify_blake_range`: checks covered bytes against a root. */
  method VerifyRange(root: Bytes, objectLength: nat, offset: nat, covered: Bytes, proof: Bytes) returns (ok: bool)
    ensures ok == RangeAccepted(root, objectLength, offset, covered, proof)
  {
    if Groups(objectLength) == 1 {
      return proof == [] && Blake3Hash(covered) == root;
    }
    ok := VerifyTree(CoveredLeaf(offset, covered), root, Groups(objectLength),
                     FirstGroup(offset), EndGroup(offset, |covered|), proof);
  }

  predicate RangeAccepted(root: Bytes, objectLength: nat, offset: nat, covered: Bytes, proof: Bytes) {
    if Groups(objectLength) == 1 then proof == [] && Blake3Hash(covered) == root
    else AcceptsTree(CoveredLeaf(offset, covered), root, Groups(objectLength),
                     FirstGroup(offset), EndGroup(offset, |covered|), proof)
  }

  // ----- what acceptance means

  ghost predicate LeavesMatch(leaf: nat -> Bytes, data: Bytes, first: nat, end: nat, start: nat, count: nat) {
    forall g: nat :: start <= g < start + count && first <= g < end ==> leaf(g) == GroupCv(data, g)
  }

  ghost predicate At(part: Bytes, proof: Bytes, cursor: nat) {
    cursor + |part| <= |proof| && proof[cursor..cursor + |part|] == part
  }

  lemma AtConcat(a: Bytes, b: Bytes, proof: Bytes, cursor: nat)
    ensures At(a + b, proof, cursor) <==> At(a, proof, cursor) && At(b, proof, cursor + |a|)
  {
    if cursor + |a + b| <= |proof| {
      var whole := proof[cursor..cursor + |a + b|];
      assert whole == proof[cursor..cursor + |a|] + proof[cursor + |a|..cursor + |a| + |b|];
      assert whole[..|a|] == proof[cursor..cursor + |a|];
      assert whole[|a|..] == proof[cursor + |a|..cursor + |a| + |b|];
    }
  }

  /** The part of a proof that checking one node consumes. */
  ghost function Wanted(data: Bytes, first: nat, end: nat, start: nat, count: nat): Bytes
    requires count > 0
  {
    if Meets(first, end, start, count) then ParentsUnder(data, first, end, start, count) else []
  }

  lemma ParentRead(nl: Bytes, nr: Bytes, rest: Bytes, proof: Bytes, cursor: nat)
    requires |nl| == |nr| == HASH
    ensures At(nl + nr + rest, proof, cursor) <==>
            ParentAt(proof, cursor) == Some((nl, nr)) && At(rest, proof, cursor + 64)
  {
    AtConcat(nl + nr, rest, proof, cursor);
    AtConcat(nl, nr, proof, cursor);
  }

  lemma ParentsAre(data: Bytes, first: nat, end: nat, start: nat, count: nat)
    requires count > 1
    ensures var left := SplitCount(count);
            ParentsUnder(data, first, end, start, count) ==
            NodeCv(data, start, left) + NodeCv(data, start + left, count - left)
            + (Wanted(data, first, end, start, left) + Wanted(data, first, end, start + left, count - left))
  {
    hide NodeCv, SplitCount;
  }

  lemma CheckChildStep(leaf: nat -> Bytes, first: nat, end: nat, proof: Bytes, cursor: nat,
                       start: nat, count: nat, expected: Bytes)
    requires count > 0
    ensures !Meets(first, end, start, count) ==>
              CheckChild(leaf, first, end, proof, cursor, start, count, expected) == Some(cursor)
    ensures Meets(first, end, start, count) && count == 1 ==>
              CheckChild(leaf, first, end, proof, cursor, start, count, expected) ==
              if leaf(start) == expected then Some(cursor) else None
    ensures Meets(first, end, start, count) && count > 1 ==>
              CheckChild(leaf, first, end, proof, cursor, start, count, expected) ==
              match ParentAt(proof, cursor)
              case None => None
              case Some((l, r)) =>
                var left := SplitCount(count);
                var a := CheckChild(leaf, first, end, proof, cursor + 64, start, left, l);
                if a.None? then None else
                  var b := CheckChild(leaf, first, end, proof, a.value, start + left, count - left, r);
                  if Output(Parent(l, r)) == expected then b else None
  {
    hide Output, SplitCount, ParentAt;
  }

  lemma LeavesMatchSplit(leaf: nat -> Bytes, data: Bytes, first: nat, end: nat, start: nat, left: nat, count: nat)
    requires left <= count
    ensures LeavesMatch(leaf, data, first, end, start, count) <==>
            LeavesMatch(leaf, data, first, end, start, left) &&
            LeavesMatch(leaf, data, first, end, start + left, count - left)
  {
    hide GroupCv;
  }

  lemma LeavesMatchEdges(leaf: nat -> Bytes, data: Bytes, first: nat, end: nat, start: nat, count: nat)
    ensures !Meets(first, end, start, count) ==> LeavesMatch(leaf, data, first, end, start, count)
    ensures Meets(first, end, start, count) && count == 1 ==>
              (LeavesMatch(leaf, data, first, end, start, count) <==> leaf(start) == GroupCv(data, start))
  {
    hide GroupCv;
  }

  /** Against an authentic node, checking succeeds exactly when the covered
      leaves are the object's and the prover's parents come next, and it
      consumes exactly those. */
  lemma {:induction false} CheckChildExact(leaf: nat -> Bytes, data: Bytes, first: nat, end: nat, proof: Bytes,
                                           cursor: nat, start: nat, count: nat)
    requires count > 0 && cursor <= |proof|
    ensures var want := Wanted(data, first, end, start, count);
            CheckChild(leaf, first, end, proof, cursor, start, count, NodeCv(data, start, count)) ==
            if LeavesMatch(leaf, data, first, end, start, count) && At(want, proof, cursor)
            then Some(cursor + |want|) else None
    decreases count
  {
    hide Output, NodeCv, SplitCount, At, ParentAt, CheckChild, LeavesMatch, ParentsUnder, GroupCv;
    NodeUnfold(data, start, count);
    AtNothing(proof, cursor);
    WantedSize(data, first, end, start, count);
    LeavesMatchEdges(leaf, data, first, end, start, count);
    CheckChildStep(leaf, first, end, proof, cursor, start, count, NodeCv(data, start, count));
    if Meets(first, end, start, count) && count > 1 {
      var left := SplitCount(count);
      var nl, nr := NodeCv(data, start, left), NodeCv(data, start + left, count - left);
      var wl, wr := Wanted(data, first, end, start, left), Wanted(data, first, end, start + left, count - left);
      ParentsAre(data, first, end, start, count);
      ParentRead(nl, nr, wl + wr, proof, cursor);
      AtConcat(wl, wr, proof, cursor + 64);
      LeavesMatchSplit(leaf, data, first, end, start, left, count);
      var pair := ParentAt(proof, cursor);
      if pair == Some((nl, nr)) {
        ParentFits(proof, cursor);
        CheckChildExact(leaf, data, first, end, proof, cursor + 64, start, left);
        if At(wl, proof, cursor + 64) {
          AtFits(wl, proof, cursor + 64);
          CheckChildExact(leaf, data, first, end, proof, cursor + 64 + |wl|, start + left, count - left);
        }
      } else if pair.Some? && Output(Parent(pair.value.0, pair.value.1)) == Output(Parent(nl, nr)) {
        OutputInjective(Parent(pair.value.0, pair.value.1), Parent(nl, nr));
      }
    }
  }

  lemma ParentFits(proof: Bytes, cursor: nat)
    requires ParentAt(proof, cursor).Some?
    ensures cursor + 64 <= |proof|
  {
  }

  lemma AtNothing(proof: Bytes, cursor: nat)
    ensures cursor <= |proof| ==> At([], proof, cursor)
  {
  }

  lemma AtFits(part: Bytes, proof: Bytes, cursor: nat)
    requires At(part, proof, cursor)
    ensures cursor + |part| <= |proof|
  {
  }

  /** A tree verifier accepts under the object's root exactly the object's
      leaves with the prover's proof, and reads it to the last byte. */
  lemma AcceptsTreeExact(leaf: nat -> Bytes, data: Bytes, first: nat, end: nat, proof: Bytes)
    requires Groups(|data|) > 1
    ensures AcceptsTree(leaf, Blake3Hash(data), Groups(|data|), first, end, proof) <==>
            LeavesMatch(leaf, data, first, end, 0, Groups(|data|)) &&
            proof == ParentsUnder(data, first, end, 0, Groups(|data|))
  {
    hide Output, NodeCv, SplitCount, Blake3Hash, Groups, At, CheckChild, ParentsUnder;
    var groups := Groups(|data|);
    var left := SplitCount(groups);
    var nl, nr := NodeCv(data, 0, left), NodeCv(data, left, groups - left);
    var wl, wr := Wanted(data, first, end, 0, left), Wanted(data, first, end, left, groups - left);
    RootIsTopNode(data);
    ParentsAre(data, first, end, 0, groups);
    ParentRead(nl, nr, wl + wr, proof, 0);
    AtConcat(wl, wr, proof, 64);
    WholeProof(ParentsUnder(data, first, end, 0, groups), proof);
    var pair := ParentAt(proof, 0);
    if pair.Some? && pair.value != (nl, nr) {
      if Output(RootParent(pair.value.0, pair.value.1)) == Output(RootParent(nl, nr)) {
        OutputInjective(RootParent(pair.value.0, pair.value.1), RootParent(nl, nr));
      }
    }
    if pair == Some((nl, nr)) {
      CheckChildExact(leaf, data, first, end, proof, 64, 0, left);
      if At(wl, proof, 64) {
        AtFits(wl, proof, 64);
        CheckChildExact(leaf, data, first, end, proof, 64 + |wl|, left, groups - left);
      }
    }
  }

  lemma WholeProof(want: Bytes, proof: Bytes)
    ensures proof == want <==> At(want, proof, 0) && |proof| == |want|
  {
    if At(want, proof, 0) && |proof| == |want| {
      assert proof[0..|want|] == proof;
    }
  }

  // ----- ranges of bytes

  /** A nonempty range of whole groups, the last of which may be the object's short one. */
  predicate ValidRange(objectLength: nat, offset: nat, length: nat) {
    && offset % GROUP == 0 && 0 < length && offset + length <= objectLength
    && ((offset + length) % GROUP == 0 || offset + length == objectLength)
  }

  lemma CoveredGroup(data: Bytes, offset: nat, covered: Bytes, g: nat)
    requires ValidRange(|data|, offset, |covered|)
    requires FirstGroup(offset) <= g < EndGroup(offset, |covered|)
    ensures var lo := g * GROUP - offset;
            var hi := Bound(lo + GROUP, |covered|);
            && 0 <= lo < hi <= |covered|
            && Slice(covered, lo, lo + GROUP) == covered[lo..hi]
            && Group(data, g) == data[offset + lo..offset + hi]
  {
  }

  lemma CoveredGroupExact(data: Bytes, offset: nat, covered: Bytes, g: nat)
    requires ValidRange(|data|, offset, |covered|)
    requires FirstGroup(offset) <= g < EndGroup(offset, |covered|)
    ensures CoveredLeaf(offset, covered)(g) == GroupCv(data, g) <==>
            Slice(covered, g * GROUP - offset, g * GROUP - offset + GROUP) == Group(data, g)
  {
    hide SubtreeCv, Group, Slice;
    var mine, theirs := Slice(covered, g * GROUP - offset, g * GROUP - offset + GROUP), Group(data, g);
    CoveredGroup(data, offset, covered, g);
    if SubtreeCv(mine, g * 64) == SubtreeCv(theirs, g * 64) {
      SubtreeInjective(mine, g * 64, theirs, g * 64);
    }
  }

  lemma SameGroup(data: Bytes, offset: nat, covered: Bytes, i: nat) returns (g: nat)
    requires ValidRange(|data|, offset, |covered|) && i < |covered|
    ensures FirstGroup(offset) <= g < EndGroup(offset, |covered|)
    ensures Slice(covered, g * GROUP - offset, g * GROUP - offset + GROUP) == Group(data, g) ==>
              covered[i] == data[offset + i]
  {
    g := (offset + i) / GROUP;
    hide Group, Slice;
    CoveredGroup(data, offset, covered, g);
    var lo := g * GROUP - offset;
    var hi := Bound(lo + GROUP, |covered|);
    if covered[lo..hi] == data[offset + lo..offset + hi] {
      assert covered[lo..hi][i - lo] == data[offset + lo..offset + hi][i - lo];
    }
  }

  lemma SameBytesSameLeaf(data: Bytes, offset: nat, covered: Bytes, g: nat)
    requires ValidRange(|data|, offset, |covered|) && covered == data[offset..offset + |covered|]
    requires FirstGroup(offset) <= g < EndGroup(offset, |covered|)
    ensures CoveredLeaf(offset, covered)(g) == GroupCv(data, g)
  {
    hide CoveredLeaf, GroupCv, Group, Slice, FirstGroup, EndGroup;
    CoveredGroup(data, offset, covered, g);
    CoveredGroupExact(data, offset, covered, g);
    var lo := g * GROUP - offset;
    SubSlice(data, covered, offset, lo, Bound(lo + GROUP, |covered|));
  }

  lemma EndWithin(length: nat, offset: nat, n: nat)
    requires ValidRange(length, offset, n)
    ensures EndGroup(offset, n) <= Groups(length)
  {
  }

  /** The covered leaves are the object's exactly when the covered bytes are. */
  lemma CoveredExact(data: Bytes, offset: nat, covered: Bytes)
    requires ValidRange(|data|, offset, |covered|)
    ensures LeavesMatch(CoveredLeaf(offset, covered), data, FirstGroup(offset), EndGroup(offset, |covered|), 0, Groups(|data|))
            <==> covered == data[offset..offset + |covered|]
  {
    EndWithin(|data|, offset, |covered|);
    hide CoveredLeaf, GroupCv, Group, Slice, FirstGroup, EndGroup, Groups;
    var leaf, first, end := CoveredLeaf(offset, covered), FirstGroup(offset), EndGroup(offset, |covered|);
    if LeavesMatch(leaf, data, first, end, 0, Groups(|data|)) {
      forall i | 0 <= i < |covered| ensures covered[i] == data[offset + i] {
        var g := SameGroup(data, offset, covered, i);
        CoveredGroupExact(data, offset, covered, g);
      }
    }
    if covered == data[offset..offset + |covered|] {
      forall g: nat | first <= g < end ensures leaf(g) == GroupCv(data, g) {
        SameBytesSameLeaf(data, offset, covered, g);
      }
    }
  }

  lemma HashInjective(a: Bytes, b: Bytes)
    requires |a| == |b| && Blake3Hash(a) == Blake3Hash(b)
    ensures a == b
  {
    hide Output, SubtreeCv, SplitCount;
    var count := Chunks(|a|);
    if count == 1 {
      OutputInjective(RootChunk(a), RootChunk(b));
    } else {
      var left := SplitCount(count);
      var m := left * CHUNK;
      OutputInjective(RootParent(SubtreeCv(a[..m], 0), SubtreeCv(a[m..], left)),
                      RootParent(SubtreeCv(b[..m], 0), SubtreeCv(b[m..], left)));
      SubtreeInjective(a[..m], 0, b[..m], 0);
      SubtreeInjective(a[m..], left, b[m..], left);
      assert a == a[..m] + a[m..] && b == b[..m] + b[m..];
    }
  }

  /** A range is accepted under the object's root exactly when its bytes are
      the object's bytes and its proof is the prover's proof. */
  lemma RangeExact(data: Bytes, offset: nat, covered: Bytes, proof: Bytes)
    requires ValidRange(|data|, offset, |covered|)
    ensures RangeAccepted(Blake3Hash(data), |data|, offset, covered, proof) <==>
            covered == data[offset..offset + |covered|] && proof == RangeProof(data, offset, |covered|)
  {
    hide Blake3Hash, AcceptsTree, ParentsUnder, CoveredLeaf, LeavesMatch;
    if Groups(|data|) == 1 {
      assert offset == 0 && |covered| == |data|;
      assert data[0..|data|] == data;
      if Blake3Hash(covered) == Blake3Hash(data) { HashInjective(covered, data); }
    } else {
      AcceptsTreeExact(CoveredLeaf(offset, covered), data, FirstGroup(offset), EndGroup(offset, |covered|), proof);
      CoveredExact(data, offset, covered);
    }
  }

  // ----- the size of a proof

  lemma WantedSize(data: Bytes, first: nat, end: nat, start: nat, count: nat)
    requires count > 0
    ensures count == 1 ==> ParentsUnder(data, first, end, start, count) == []
    ensures count > 1 ==>
              var left := SplitCount(count);
              |ParentsUnder(data, first, end, start, count)| ==
              64 + |Wanted(data, first, end, start, left)| + |Wanted(data, first, end, start + left, count - left)|
  {
    hide NodeCv, SplitCount;
    if count > 1 { ParentsAre(data, first, end, start, count); }
  }

  lemma {:induction false} SmallTreeSize(data: Bytes, first: nat, end: nat, start: nat, count: nat) returns (n: nat)
    requires count > 0
    ensures |ParentsUnder(data, first, end, start, count)| == 64 * n && n <= count - 1
    decreases count
  {
    hide ParentsUnder, SplitCount;
    WantedSize(data, first, end, start, count);
    n := 0;
    if count > 1 {
      var left := SplitCount(count);
      var l := SmallTreeSize(data, first, end, start, left);
      var r := SmallTreeSize(data, first, end, start + left, count - left);
      n := 1 + (if Meets(first, end, start, left) then l else 0)
             + (if Meets(first, end, start + left, count - left) then r else 0);
    }
  }

  lemma SplitAligned(count: nat, d: nat)
    requires 64 < count <= Pow2(6 + d)
    ensures d > 0 && SplitCount(count) % 64 == 0 && SplitCount(count) <= Pow2(6 + d - 1)
  {
    hide Pow2, BitLength;
    BitLengthBounds(count - 1);
    var m := BitLength(count - 1) - 1;
    Pow2At6();
    if m < 6 { Pow2Monotone(m + 1, 6); }
    if 6 + d <= m { Pow2Monotone(6 + d, m); }
    Pow2Monotone(m, 6 + d - 1);
    Pow2Sum(6, m - 6);
    Of64(Pow2(m - 6));
  }

  lemma Of64(n: nat)
    ensures (64 * n) % 64 == 0
  {
  }

  /** A proof of at most 64 groups, aligned at 64, in a tree of at most 2^(6+d)
      groups holds at most 63 + d parents. */
  lemma {:induction false} ProofSize(data: Bytes, first: nat, end: nat, start: nat, count: nat, d: nat)
    requires 0 < count <= Pow2(6 + d) && start % 64 == 0 && first % 64 == 0 && first <= end <= first + 64
    ensures |ParentsUnder(data, first, end, start, count)| <= 64 * (63 + d)
    decreases count
  {
    hide ParentsUnder, SplitCount, Pow2, Wanted, Meets;
    if count <= 64 {
      var n := SmallTreeSize(data, first, end, start, count);
    } else {
      WantedSize(data, first, end, start, count);
      SplitAligned(count, d);
      var left := SplitCount(count);
      var right := start + left;
      ProofSize(data, first, end, start, left, d - 1);
      ProofSize(data, first, end, right, count - left, d - 1);
      OneSideMet(first, end, start, left, count);
      WantedBound(data, first, end, start, left, 64 * (62 + d));
      WantedBound(data, first, end, right, count - left, 64 * (62 + d));
    }
  }

  lemma WantedBound(data: Bytes, first: nat, end: nat, start: nat, count: nat, n: nat)
    requires count > 0 && |ParentsUnder(data, first, end, start, count)| <= n
    ensures |Wanted(data, first, end, start, count)| <= n
    ensures !Meets(first, end, start, count) ==> |Wanted(data, first, end, start, count)| == 0
  {
    hide ParentsUnder;
  }

  lemma OneSideMet(first: nat, end: nat, start: nat, left: nat, count: nat)
    requires start % 64 == 0 && left % 64 == 0 && first % 64 == 0 && end <= first + 64
    ensures !Meets(first, end, start, left) || !Meets(first, end, start + left, count - left)
  {
    var a, b := first / 64, (start + left) / 64;
    assert first == 64 * a && start + left == 64 * b;
  }

  // ----- the order of a proof

  lemma Splits()
    ensures SplitCount(4) == 2 && SplitCount(2) == 1
  {
    assert Pow2(1) == 2 && Pow2(0) == 1;
    SplitUnique(4, 1);
    SplitUnique(2, 0);
  }

  /** Four groups: each parent's two children, the parent before what is under
      it, the left side before the right. */
  lemma FourGroups(data: Bytes)
    ensures ParentsUnder(data, 0, 4, 0, 4)
         == (NodeCv(data, 0, 2) + NodeCv(data, 2, 2)) + (GroupCv(data, 0) + GroupCv(data, 1))
            + (GroupCv(data, 2) + GroupCv(data, 3))
    ensures ParentsUnder(data, 2, 3, 0, 4)
         == (NodeCv(data, 0, 2) + NodeCv(data, 2, 2)) + (GroupCv(data, 2) + GroupCv(data, 3))
    ensures ParentsUnder(data, 1, 2, 0, 4)
         == (NodeCv(data, 0, 2) + NodeCv(data, 2, 2)) + (GroupCv(data, 0) + GroupCv(data, 1))
  {
    Splits();
    hide SplitCount, GroupCv, ParentsUnder;
    TwoGroups(data, 0, 4, 0);
    TwoGroups(data, 0, 4, 2);
    TwoGroups(data, 2, 3, 2);
    TwoGroups(data, 1, 2, 0);
    hide NodeCv;
    FourUnder(data, 0, 4);
    FourUnder(data, 2, 3);
    FourUnder(data, 1, 2);
    var top := NodeCv(data, 0, 2) + NodeCv(data, 2, 2);
    assert top + [] == top;
    assert top + ParentsUnder(data, 1, 2, 0, 2) + [] == top + ParentsUnder(data, 1, 2, 0, 2);
  }

  lemma FourUnder(data: Bytes, first: nat, end: nat)
    ensures ParentsUnder(data, first, end, 0, 4)
         == NodeCv(data, 0, 2) + NodeCv(data, 2, 2)
            + (if Meets(first, end, 0, 2) then ParentsUnder(data, first, end, 0, 2) else [])
            + (if Meets(first, end, 2, 2) then ParentsUnder(data, first, end, 2, 2) else [])
  {
    Splits();
    hide SplitCount, NodeCv;
  }

  lemma TwoGroups(data: Bytes, first: nat, end: nat, start: nat)
    ensures ParentsUnder(data, first, end, start, 2) == GroupCv(data, start) + GroupCv(data, start + 1)
  {
    Splits();
    hide SplitCount, GroupCv;
    assert ParentsUnder(data, first, end, start, 1) == [] && ParentsUnder(data, first, end, start + 1, 1) == [];
    var pair := NodeCv(data, start, 1) + NodeCv(data, start + 1, 1);
    assert pair + [] + [] == pair;
  }
}
