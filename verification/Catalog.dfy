/** The static proof catalog: building it, parsing it whole, and reading one
    record of it by random access. */
module Catalog {
  import opened Powers
  import opened Hashing
  import opened CatalogFormat
  import BlakeTree
  import BlakeRange
  import ShaTree
  import ShaRange

  datatype Outcome = Accepted | Malformed | Unsupported | IdentityMismatch | ProofInvalid | Unavailable

  /** The caller's authoritative object identity. */
  datatype Identity = Identity(suite: nat, root: Bytes, length: nat)

  /** The payload the verifier holds, and the suite it prepared its leaves for. */
  datatype Context = Context(suite: nat, data: Bytes)

  predicate KnownSuite(suite: nat) {
    suite == 1 || suite == 2
  }

  function Root(suite: nat, data: Bytes): (r: Bytes) {
    if suite == 1 then BlakeTree.Blake3Hash(data) else ShaTree.ShaRoot(data)
  }

  // ----- one record

  function Offset(ordinal: nat): nat {
    ordinal * RANGE_LENGTH
  }

  /** A record's bytes are a valid aligned range of at most 64 groups. */
  lemma RecordRange(length: nat, ordinal: nat)
    requires ordinal < Records(length)
    ensures var offset, n := Offset(ordinal), RecordLength(length, ordinal);
            && BlakeRange.ValidRange(length, offset, n)
            && BlakeRange.FirstGroup(offset) == 64 * ordinal
            && 64 * ordinal < BlakeRange.EndGroup(offset, n) <= 64 * ordinal + 64
            && BlakeRange.EndGroup(offset, n) <= ShaTree.PieceCount(length)
            && length > 0
  {
    RecordInside(length, ordinal);
    var offset, n := Offset(ordinal), RecordLength(length, ordinal);
    GroupSpan(64 * ordinal, n);
    GroupSpan(0, length);
    hide Records;
    if n < RANGE_LENGTH {
      assert offset + n == length;
    } else {
      assert offset + n == (64 * ordinal + 64) * 65536;
    }
  }

  lemma RecordInside(length: nat, ordinal: nat)
    ensures ordinal < Records(length) <==> ordinal * RANGE_LENGTH < length
  {
    var q, r := length / RANGE_LENGTH, length % RANGE_LENGTH;
    assert length == q * RANGE_LENGTH + r;
  }

  /** The groups of n bytes from the start of group a. */
  lemma GroupSpan(a: nat, n: nat)
    ensures BlakeRange.FirstGroup(a * 65536) == a
    ensures BlakeRange.EndGroup(a * 65536, n) == a + BlakeRange.EndGroup(0, n)
    ensures n > 0 ==> 0 < BlakeRange.EndGroup(0, n)
    ensures n <= RANGE_LENGTH ==> BlakeRange.EndGroup(0, n) <= 64
  {
  }

  function RecordProof(suite: nat, data: Bytes, ordinal: nat): Bytes
    requires ordinal < Records(|data|)
  {
    RecordRange(|data|, ordinal);
    if suite == 1 then BlakeRange.RangeProof(data, Offset(ordinal), RecordLength(|data|, ordinal))
    else ShaRange.RangeProof(data, Offset(ordinal), RecordLength(|data|, ordinal))
  }

  function GroupLeaf(data: Bytes): nat -> Bytes {
    (g: nat) => BlakeTree.GroupCv(data, g)
  }

  function LayerLeaf(layer: seq<Bytes>): nat -> Bytes {
    (i: nat) => if i < |layer| then layer[i] else []
  }

  /** `verify_record`: checks a proof against the payload's leaves. */
  predicate RecordAccepted(suite: nat, root: Bytes, ordinal: nat, proof: Bytes, ctx: Context)
    requires ordinal < Records(|ctx.data|)
  {
    RecordRange(|ctx.data|, ordinal);
    var data := ctx.data;
    var first := BlakeRange.FirstGroup(Offset(ordinal));
    var end := BlakeRange.EndGroup(Offset(ordinal), RecordLength(|data|, ordinal));
    && ctx.suite == suite
    && if suite == 1 then
         var groups := BlakeTree.Groups(|data|);
         if groups == 1 then proof == [] && BlakeTree.Blake3Hash(data) == root
         else BlakeRange.AcceptsTree(GroupLeaf(data), root, groups, first, end, proof)
       else
         var count := ShaTree.PieceCount(|data|);
         if count == 1 then proof == [] && ShaTree.ShaRoot(data) == root
         else
           var layer := ShaTree.Layer(data);
           ShaRange.AcceptsTree(LayerLeaf(layer), root, |layer|, count, first, end, proof)
  }

  method VerifyRecord(suite: nat, root: Bytes, ordinal: nat, proof: Bytes, ctx: Context) returns (ok: bool)
    requires ordinal < Records(|ctx.data|)
    ensures ok == RecordAccepted(suite, root, ordinal, proof, ctx)
  {
    hide BlakeRange.AcceptsTree, ShaRange.AcceptsTree, BlakeTree.Blake3Hash, ShaTree.ShaRoot, ShaTree.Layer,
      BlakeRange.FirstGroup, BlakeRange.EndGroup;
    RecordRange(|ctx.data|, ordinal);
    if ctx.suite != suite { return false; }
    var data := ctx.data;
    var first := BlakeRange.FirstGroup(Offset(ordinal));
    var end := BlakeRange.EndGroup(Offset(ordinal), RecordLength(|data|, ordinal));
    if suite == 1 {
      var groups := BlakeTree.Groups(|data|);
      if groups == 1 { return proof == [] && BlakeTree.Blake3Hash(data) == root; }
      ok := BlakeRange.VerifyTree(GroupLeaf(data), root, groups, first, end, proof);
    } else {
      var count := ShaTree.PieceCount(|data|);
      if count == 1 { return proof == [] && ShaTree.ShaRoot(data) == root; }
      var layer := ShaTree.Layer(data);
      ok := ShaRange.VerifyTree(LayerLeaf(layer), root, |layer|, count, first, end, proof);
    }
  }

  lemma BlakeRecordExact(data: Bytes, ordinal: nat, proof: Bytes)
    requires ordinal < Records(|data|)
    ensures RecordAccepted(1, Root(1, data), ordinal, proof, Context(1, data)) <==> proof == RecordProof(1, data, ordinal)
  {
    hide BlakeRange.AcceptsTree, BlakeTree.Blake3Hash, BlakeRange.ParentsUnder, BlakeTree.GroupCv,
      BlakeRange.FirstGroup, BlakeRange.EndGroup;
    RecordRange(|data|, ordinal);
    if BlakeTree.Groups(|data|) > 1 {
      var first := BlakeRange.FirstGroup(Offset(ordinal));
      var end := BlakeRange.EndGroup(Offset(ordinal), RecordLength(|data|, ordinal));
      BlakeRange.AcceptsTreeExact(GroupLeaf(data), data, first, end, proof);
      assert BlakeRange.LeavesMatch(GroupLeaf(data), data, first, end, 0, BlakeTree.Groups(|data|));
    }
  }

  lemma ShaRecordExact(data: Bytes, ordinal: nat, proof: Bytes)
    requires ordinal < Records(|data|)
    ensures RecordAccepted(2, Root(2, data), ordinal, proof, Context(2, data)) <==> proof == RecordProof(2, data, ordinal)
  {
    hide ShaRange.AcceptsTree, ShaTree.ShaRoot, ShaRange.Proof, ShaTree.Layer,
      BlakeRange.FirstGroup, BlakeRange.EndGroup, ShaTree.IsPow2, ShaTree.Reduce;
    RecordRange(|data|, ordinal);
    var count := ShaTree.PieceCount(|data|);
    if count > 1 {
      var first := BlakeRange.FirstGroup(Offset(ordinal));
      var end := BlakeRange.EndGroup(Offset(ordinal), RecordLength(|data|, ordinal));
      var layer := ShaTree.Layer(data);
      ShaTree.PieceTree(data);
      ShaRange.LayerIs(data);
      ShaRange.AcceptsTreeExact(LayerLeaf(layer), layer, count, first, end, proof);
      assert ShaRange.LeavesMatch(LayerLeaf(layer), layer, first, end, 0, |layer|);
    }
  }

  /** Against the object's own root, a record is accepted with exactly the prover's proof. */
  lemma RecordExact(suite: nat, data: Bytes, ordinal: nat, proof: Bytes)
    requires KnownSuite(suite) && ordinal < Records(|data|)
    ensures RecordAccepted(suite, Root(suite, data), ordinal, proof, Context(suite, data)) <==>
            proof == RecordProof(suite, data, ordinal)
  {
    hide RecordAccepted, RecordProof;
    if suite == 1 { BlakeRecordExact(data, ordinal, proof); } else { ShaRecordExact(data, ordinal, proof); }
  }

  // ----- sizes

  lemma Pow2At47()
    ensures Pow2(47) == 0x8000_0000_0000
  {
    var p5, p6 := Pow2(5), Pow2(6);
    assert p5 == 32 && p6 == 64;
    hide Pow2;
    Pow2Sum(6, 5);
    assert Pow2(11) == 0x800;
    Pow2Sum(6, 6);
    assert Pow2(12) == 0x1000;
    Pow2Sum(12, 12);
    Pow2Sum(24, 12);
    assert Pow2(36) == 0x10_0000_0000;
    Pow2Sum(36, 11);
  }

  lemma BlakeRecordSize(data: Bytes, ordinal: nat)
    requires |data| <= MAX_OBJECT_LENGTH && ordinal < Records(|data|)
    ensures |RecordProof(1, data, ordinal)| <= 6656 && |RecordProof(1, data, ordinal)| % 32 == 0
  {
    hide BlakeRange.ParentsUnder, Pow2, BlakeRange.FirstGroup, BlakeRange.EndGroup;
    RecordRange(|data|, ordinal);
    var first := BlakeRange.FirstGroup(Offset(ordinal));
    var end := BlakeRange.EndGroup(Offset(ordinal), RecordLength(|data|, ordinal));
    var groups := BlakeTree.Groups(|data|);
    Pow2At47();
    assert groups <= Pow2(47);
    BlakeRange.ProofSize(data, first, end, 0, groups, 41);
    var n := BlakeRange.SmallTreeSize(data, first, end, 0, groups);
    Multiple(n);
  }

  lemma Multiple(n: nat)
    ensures (64 * n) % 32 == 0
  {
    ShaRange.Multiple(2 * n);
  }

  lemma LayerHeight(length: nat) returns (h: nat)
    requires 0 < length <= MAX_OBJECT_LENGTH
    ensures h <= 47 && ShaTree.TreeWidth(ShaTree.PieceCount(length)) == Pow2(h)
  {
    var count := ShaTree.PieceCount(length);
    assert count <= 0x8000_0000_0000;
    h := BitLength(count - 1);
    hide Pow2, BitLength;
    Pow2At47();
    BitLengthBounds(count - 1);
    if h > 47 { Pow2Monotone(47, h - 1); }
  }

  lemma ShaRecordSize(data: Bytes, ordinal: nat)
    requires |data| <= MAX_OBJECT_LENGTH && ordinal < Records(|data|)
    ensures |RecordProof(2, data, ordinal)| <= 3520 && |RecordProof(2, data, ordinal)| % 32 == 0
  {
    hide ShaRange.Proof, Pow2, BlakeRange.FirstGroup, BlakeRange.EndGroup, ShaTree.Layer, ShaTree.TreeWidth, ShaTree.IsPow2;
    RecordRange(|data|, ordinal);
    var count := ShaTree.PieceCount(|data|);
    if count > 1 {
      var h := LayerHeight(|data|);
      ShaTree.LayerHashes(data);
      var first := BlakeRange.FirstGroup(Offset(ordinal));
      var end := BlakeRange.EndGroup(Offset(ordinal), RecordLength(|data|, ordinal));
      SixtyFour(ordinal);
      ShaRange.ProofSize(ShaTree.Layer(data), count, first, end, h);
    }
  }

  lemma SixtyFour(n: nat)
    ensures (64 * n) % 64 == 0
  {
  }

  /** The size assertions in `build_catalog` hold for every object and record. */
  lemma RecordSize(suite: nat, data: Bytes, ordinal: nat)
    requires KnownSuite(suite) && |data| <= MAX_OBJECT_LENGTH && ordinal < Records(|data|)
    ensures |RecordProof(suite, data, ordinal)| <= MAX_PROOF_LENGTH && |RecordProof(suite, data, ordinal)| % 32 == 0
  {
    hide RecordProof;
    if suite == 1 { BlakeRecordSize(data, ordinal); } else { ShaRecordSize(data, ordinal); }
  }
}
