/** SHA-256 range proofs: the aligned window around the covered pieces, the
    hashes a prover writes for it, and the climb to the root. */
module ShaRange {
  import opened Wrappers
  import opened Powers
  import opened Hashing
  import opened ShaTree
  import BlakeRange

  // ----- blocks

  /** The block of `width` pieces that holds piece x. */
  function Block(x: nat, width: nat): nat
    requires width > 0
  {
    x / width
  }

  /** Where that block starts. */
  function Floor(x: nat, width: nat): nat
    requires width > 0
  {
    Block(x, width) * width
  }

  lemma BlockBelow(b: nat, q: nat, width: nat)
    requires width > 0
    ensures b < q <==> b * width + width <= q * width
  {
    if b < q {
      assert (b + 1) * width <= q * width;
    } else {
      assert q * width <= b * width;
    }
    assert (b + 1) * width == b * width + width;
  }

  lemma FloorOf(x: nat, width: nat)
    requires width > 0
    ensures Floor(x, width) <= x < Floor(x, width) + width
  {
    assert x == width * (x / width) + x % width;
  }

  lemma BlockIndex(b: nat, width: nat)
    requires width > 0
    ensures Block(b * width, width) == b
  {
    var d := Block(b * width, width);
    FloorOf(b * width, width);
    hide Block;
    BlockBelow(d, b, width);
    BlockBelow(b, d, width);
  }

  // ----- the window

  /** Widening from `width`, the first aligned window that holds [first, end). */
  function Widen(first: nat, end: nat, width: nat): (r: (nat, nat))
    requires first <= end && 0 < width && IsPow2(width)
    ensures width <= r.1 && IsPow2(r.1)
    ensures r.0 == Floor(first, r.1) <= first && end <= r.0 + r.1
    decreases end - width
  {
    hide IsPow2, Floor;
    FloorBelow(first, width);
    DoublePow2(width);
    var start := Floor(first, width);
    if end <= start + width then (start, width) else Widen(first, end, 2 * width)
  }

  /** Inside a tree the window stays inside it. */
  lemma {:induction false} WidenInside(first: nat, end: nat, width: nat, treeWidth: nat)
    requires first < end <= treeWidth && 0 < width <= treeWidth && IsPow2(width) && IsPow2(treeWidth)
    ensures var r := Widen(first, end, width);
            r.1 <= treeWidth && r.0 + r.1 <= treeWidth
    decreases treeWidth - width
  {
    hide IsPow2, Floor;
    WindowFits(first, width, treeWidth);
    if end > Floor(first, width) + width {
      WindowGrows(first, end, width, treeWidth);
      WidenInside(first, end, 2 * width, treeWidth);
    }
  }

  /** An aligned block that starts inside a power-of-two tree ends inside it. */
  lemma WindowFits(first: nat, width: nat, treeWidth: nat)
    requires first < treeWidth && 0 < width <= treeWidth && IsPow2(width) && IsPow2(treeWidth)
    ensures Floor(first, width) <= first < Floor(first, width) + width <= treeWidth
  {
    hide IsPow2, Block;
    var q := Quotient(width, treeWidth);
    FloorOf(first, width);
    BlockBelow(Block(first, width), q, width);
    BlockBelow(q, Block(first, width), width);
  }

  lemma WindowGrows(first: nat, end: nat, width: nat, treeWidth: nat)
    requires first < end <= treeWidth && 0 < width <= treeWidth && IsPow2(width) && IsPow2(treeWidth)
    requires end > Floor(first, width) + width
    ensures 2 * width <= treeWidth && IsPow2(2 * width)
  {
    DoublePow2(width);
    hide IsPow2, Floor;
    WindowFits(first, width, treeWidth);
    Pow2Gap(width, treeWidth);
  }

  lemma Pow2Gap(a: nat, b: nat)
    requires IsPow2(a) && IsPow2(b) && a < b
    ensures 2 * a <= b
  {
    hide IsPow2, Pow2;
    var i := Exponent(a);
    var j := Exponent(b);
    if j <= i { Pow2Monotone(j, i); }
    Pow2Monotone(i, j);
  }

  /** A smaller power of two divides a larger one, evenly past the first. */
  lemma Quotient(a: nat, b: nat) returns (q: nat)
    requires IsPow2(a) && IsPow2(b) && a <= b
    ensures b == q * a && q > 0 && (a < b ==> q % 2 == 0)
  {
    hide IsPow2, Pow2;
    var i := Exponent(a);
    var j := Exponent(b);
    if i == j { assert b == 1 * a; return 1; }
    if j < i { Pow2Monotone(j, i); }
    Pow2Sum(j - i, i);
    q := Pow2(j - i);
    if i < j { Pow2Next(j - i - 1); }
  }

  /** The least power of two not below n, and two for nothing. */
  function PaddedWidth(n: nat): (r: nat)
    ensures n <= r && r > 0 && IsPow2(r)
  {
    Pow2IsPow2(1);
    if n == 0 then 2 else TreeWidth(n)
  }

  /** The first width tried: the span rounded up, and at least two in a real tree. */
  function FirstWidth(first: nat, end: nat, treeWidth: nat): (r: nat)
    requires first <= end
    ensures r > 0 && IsPow2(r) && (treeWidth > 1 ==> r >= 2)
  {
    Pow2IsPow2(1);
    var width := PaddedWidth(end - first);
    if treeWidth > 1 && width < 2 then 2 else width
  }

  lemma FirstWidthFits(first: nat, end: nat, treeWidth: nat)
    requires first < end <= treeWidth && IsPow2(treeWidth)
    ensures FirstWidth(first, end, treeWidth) <= treeWidth
  {
    hide IsPow2;
    var width := TreeWidth(end - first);
    if width > treeWidth { Pow2Gap(treeWidth, width); }
  }

  function Window(first: nat, end: nat, treeWidth: nat): (r: (nat, nat))
    requires first <= end
    ensures r.1 > 0 && IsPow2(r.1) && (treeWidth > 1 ==> r.1 >= 2)
    ensures r.0 == Floor(first, r.1) <= first && end <= r.0 + r.1
    ensures first < end <= treeWidth && IsPow2(treeWidth) ==> r.1 <= treeWidth && r.0 + r.1 <= treeWidth
  {
    hide IsPow2, Floor, FirstWidth, Widen;
    assert first < end <= treeWidth && IsPow2(treeWidth) ==>
        var r := Widen(first, end, FirstWidth(first, end, treeWidth)); r.1 <= treeWidth && r.0 + r.1 <= treeWidth by {
      if first < end <= treeWidth && IsPow2(treeWidth) {
        FirstWidthFits(first, end, treeWidth);
        WidenInside(first, end, FirstWidth(first, end, treeWidth), treeWidth);
      }
    }
    Widen(first, end, FirstWidth(first, end, treeWidth))
  }

  method ProofWindow(first: nat, end: nat, treeWidth: nat) returns (start: nat, width: nat)
    requires first <= end
    ensures (start, width) == Window(first, end, treeWidth)
  {
    hide IsPow2, FirstWidth, Floor;
    width := FirstWidth(first, end, treeWidth);
    start := Floor(first, width);
    while end > start + width
      invariant 0 < width && IsPow2(width) && start == Floor(first, width)
      invariant Widen(first, end, width) == Window(first, end, treeWidth)
      decreases end - width
    {
      DoublePow2(width);
      width := 2 * width;
      start := Floor(first, width);
    }
  }

  /** The window is the smallest there is: no narrower power of two, two or more
      in a real tree, has an aligned block that holds the range. */
  lemma WindowSmallest(first: nat, end: nat, treeWidth: nat, width: nat)
    requires first < end && width > 0 && IsPow2(width) && (treeWidth > 1 ==> width >= 2)
    requires end <= Floor(first, width) + width
    ensures Window(first, end, treeWidth).1 <= width
  {
    hide IsPow2, Floor, TreeWidth;
    assert end - first <= width by { hide *; FloorBelow(first, width); }
    TreeWidthLeast(end - first, width);
    WidenSmallest(first, end, FirstWidth(first, end, treeWidth), width);
  }

  lemma FloorBelow(x: nat, width: nat)
    requires width > 0
    ensures Floor(x, width) <= x
  {
    hide Block;
    FloorOf(x, width);
  }

  lemma {:induction false} WidenSmallest(first: nat, end: nat, from: nat, width: nat)
    requires first <= end && 0 < from <= width
    requires IsPow2(from) && IsPow2(width) && end <= Floor(first, width) + width
    ensures Widen(first, end, from).1 <= width
    decreases width - from
  {
    hide IsPow2, Floor;
    if end > Floor(first, from) + from {
      DoublePow2(from);
      Pow2Gap(from, width);
      WidenSmallest(first, end, 2 * from, width);
    }
  }

  lemma TreeWidthLeast(n: nat, width: nat)
    requires 0 < n <= width && IsPow2(width)
    ensures TreeWidth(n) <= width
  {
    hide IsPow2, Pow2;
    if TreeWidth(n) > width { Pow2Gap(width, TreeWidth(n)); }
  }

  // ----- the climb

  /** The block beside the one at `start`: its index with the last bit flipped. */
  function Sibling(start: nat, width: nat): nat
    requires width > 0
  {
    var b := Block(start, width);
    (if b % 2 == 0 then b + 1 else b - 1) * width
  }

  function Min(a: nat, b: nat): nat {
    if a < b then a else b
  }

  /** Hashes of uncovered pieces in the window, then of each sibling on the way up. */
  function WindowProof(layer: seq<Bytes>, first: nat, end: nat, count: nat, index: nat, stop: nat): Bytes
    requires index <= stop <= |layer|
    decreases stop - index
  {
    if index == stop then [] else
      (if !(first <= index < end) && index < count then layer[index] else [])
      + WindowProof(layer, first, end, count, index + 1, stop)
  }

  lemma WindowProofStep(layer: seq<Bytes>, first: nat, end: nat, count: nat, index: nat, stop: nat)
    requires index <= stop <= |layer|
    ensures index == stop ==> WindowProof(layer, first, end, count, index, stop) == []
    ensures index < stop ==>
              WindowProof(layer, first, end, count, index, stop) ==
              (if !(first <= index < end) && index < count then layer[index] else [])
              + WindowProof(layer, first, end, count, index + 1, stop)
  {
  }

  function ClimbProof(layer: seq<Bytes>, count: nat, start: nat, width: nat): Bytes
    requires width > 0 && IsPow2(width)
    decreases |layer| - width
  {
    if width >= |layer| then [] else
      var s := Sibling(start, width);
      DoublePow2(width);
      (if s < count && s + width <= |layer| then Reduce(layer[s..s + width]) else [])
      + ClimbProof(layer, count, Min(start, s), 2 * width)
  }

  function RangeProof(data: Bytes, offset: nat, length: nat): Bytes
    requires data != []
    requires BlakeRange.FirstGroup(offset) < BlakeRange.EndGroup(offset, length) <= PieceCount(|data|)
  {
    var first, end, count := BlakeRange.FirstGroup(offset), BlakeRange.EndGroup(offset, length), PieceCount(|data|);
    if count == 1 then [] else Proof(Layer(data), count, first, end)
  }

  /** The proof of pieces [first, end) out of a padded piece layer. */
  function Proof(layer: seq<Bytes>, count: nat, first: nat, end: nat): Bytes
    requires IsPow2(|layer|) && first < end <= |layer|
  {
    var (start, width) := Window(first, end, |layer|);
    WindowProof(layer, first, end, count, start, start + width) + ClimbProof(layer, count, start, width)
  }

  method Prove(layer: seq<Bytes>, count: nat, first: nat, end: nat) returns (proof: Bytes)
    requires IsPow2(|layer|) && first < end <= count <= |layer|
    ensures proof == Proof(layer, count, first, end)
  {
    hide IsPow2, Reduce, Window, ClimbProof, WindowProof;
    var start, width := ProofWindow(first, end, |layer|);
    proof := ProveWindow(layer, count, first, end, start, width);
    proof := ProveClimb(layer, count, Block(first, width), start, width, proof);
  }

  method ProveWindow(layer: seq<Bytes>, count: nat, first: nat, end: nat, start: nat, width: nat) returns (proof: Bytes)
    requires start + width <= |layer|
    ensures proof == WindowProof(layer, first, end, count, start, start + width)
  {
    hide WindowProof;
    ghost var want := WindowProof(layer, first, end, count, start, start + width);
    proof := [];
    WindowProofStep(layer, first, end, count, start + width, start + width);
    for index := start to start + width
      invariant want == proof + WindowProof(layer, first, end, count, index, start + width)
    {
      WindowProofStep(layer, first, end, count, index, start + width);
      if !(first <= index < end) && index < count {
        proof := proof + layer[index];
      }
    }
  }

  lemma ClimbProofStep(layer: seq<Bytes>, count: nat, b: nat, start: nat, width: nat)
    requires 0 < width < |layer| && IsPow2(width) && IsPow2(|layer|)
    requires start == b * width && start + width <= |layer|
    ensures IsPow2(2 * width)
    ensures var s := Sibling(start, width);
            ClimbProof(layer, count, start, width) ==
            (if s < count && s + width <= |layer| then Reduce(layer[s..s + width]) else [])
            + ClimbProof(layer, count, Min(start, s), 2 * width)
  {
    hide IsPow2, Reduce, Sibling, Min;
    DoublePow2(width);
  }

  method ProveClimb(layer: seq<Bytes>, count: nat, ghost b0: nat, start0: nat, width0: nat, written: Bytes)
    returns (proof: Bytes)
    requires IsPow2(|layer|) && 0 < width0 <= |layer| && IsPow2(width0)
    requires start0 == b0 * width0 && start0 + width0 <= |layer|
    ensures proof == written + ClimbProof(layer, count, start0, width0)
  {
    hide IsPow2, Reduce, Sibling;
    proof := written;
    var start: nat, width: nat := start0, width0;
    ghost var b := b0;
    while width < |layer|
      invariant 0 < width <= |layer| && IsPow2(width) && start == b * width && start + width <= |layer|
      invariant written + ClimbProof(layer, count, start0, width0) == proof + ClimbProof(layer, count, start, width)
      decreases |layer| - width
    {
      SiblingFits(b, start, width, |layer|);
      ClimbProofStep(layer, count, b, start, width);
      hide ClimbProof;
      var s := Sibling(start, width);
      if s < count {
        var node := ReduceHashes(layer[s..s + width]);
        proof := proof + node;
      }
      start := Min(start, s);
      width := 2 * width;
      b := b / 2;
    }
  }

  /** Climbing one level: the two blocks make up the aligned block twice as wide. */
  lemma SiblingFits(b: nat, start: nat, width: nat, treeWidth: nat)
    requires 0 < width < treeWidth && IsPow2(width) && IsPow2(treeWidth)
    requires start == b * width && start + width <= treeWidth
    ensures var s := Sibling(start, width);
            && s + width <= treeWidth
            && Min(start, s) == (b / 2) * (2 * width)
            && Min(start, s) + 2 * width <= treeWidth
            && (if b % 2 == 0 then s == start + width else start == s + width)
    ensures IsPow2(2 * width) && 2 * width <= treeWidth
  {
    hide IsPow2, Block, Sibling;
    DoublePow2(width);
    Pow2Gap(width, treeWidth);
    SiblingIs(b, start, width);
    if b % 2 == 0 { RoomAbove(b, start, width, treeWidth); }
  }

  /** An even block's sibling is the next one, an odd block's the one before. */
  lemma SiblingIs(b: nat, start: nat, width: nat)
    requires width > 0 && start == b * width
    ensures var s := Sibling(start, width);
            if b % 2 == 0 then s == start + width && start == (b / 2) * (2 * width)
            else s + width == start && s == (b / 2) * (2 * width)
  {
    hide Block;
    BlockIndex(b, width);
    Halves(b, width);
  }

  /** The tree is an even number of blocks wide, so an even block is not its last. */
  lemma RoomAbove(b: nat, start: nat, width: nat, treeWidth: nat)
    requires 0 < width < treeWidth && IsPow2(width) && IsPow2(treeWidth)
    requires b % 2 == 0 && start == b * width && start + width <= treeWidth
    ensures start + 2 * width <= treeWidth
  {
    hide IsPow2;
    var q := Quotient(width, treeWidth);
    BlockBelow(b, q, width);
    BlockBelow(b + 1, q, width);
    assert (b + 1) * width == b * width + width;
  }

  lemma Halves(b: nat, width: nat)
    ensures b % 2 == 0 ==> b * width == (b / 2) * (2 * width) && (b + 1) * width == b * width + width
    ensures b % 2 == 1 ==> (b - 1) * width == (b / 2) * (2 * width) && b * width == (b - 1) * width + width
  {
    var h := b / 2;
    if b % 2 == 0 {
      assert b == 2 * h;
    } else {
      assert b == 2 * h + 1;
    }
  }

  // ----- verifying

  /** The next 32 proof bytes. */
  function HashAt(proof: Bytes, cursor: nat): (r: Option<Bytes>)
    ensures r.Some? ==> |r.value| == HASH && cursor + HASH <= |proof|
  {
    if cursor + HASH <= |proof| then Some(proof[cursor..cursor + HASH]) else None
  }

  class HashReader {
    const proof: Bytes
    var cursor: nat

    constructor (proof: Bytes)
      ensures this.proof == proof && cursor == 0
    {
      this.proof := proof;
      cursor := 0;
    }

    method ReadHash() returns (hash: Option<Bytes>)
      modifies this
      ensures hash == HashAt(proof, old(cursor))
      ensures cursor == if hash.Some? then old(cursor) + HASH else old(cursor)
    {
      hash := HashAt(proof, cursor);
      if hash.Some? { cursor := cursor + HASH; }
    }
  }

  /** The window's nodes from `index` on: covered pieces from `leaf`, other
      pieces from the proof, padding past the last piece. */
  function ReadWindow(leaf: nat -> Bytes, first: nat, end: nat, count: nat, proof: Bytes, cursor: nat,
                      index: nat, stop: nat): (r: Option<(seq<Bytes>, nat)>)
    requires index <= stop
    ensures r.Some? ==> |r.value.0| == stop - index
    decreases stop - index
  {
    if index == stop then Some(([], cursor)) else
      var node: Option<(Bytes, nat)> :=
        if first <= index < end then Some((leaf(index), cursor))
        else if index < count then
          match HashAt(proof, cursor) case None => None case Some(h) => Some((h, cursor + HASH))
        else Some((ZERO_PIECE, cursor));
      match node
      case None => None
      case Some((h, c)) =>
        match ReadWindow(leaf, first, end, count, proof, c, index + 1, stop)
        case None => None
        case Some((rest, c')) => Some(([h] + rest, c'))
  }

  /** The value at the root after climbing from a window's value, and the cursor there. */
  function Climb(count: nat, treeWidth: nat, proof: Bytes, cursor: nat, value: Bytes,
                 start: nat, width: nat): (r: Option<(Bytes, nat)>)
    requires width > 0 && IsPow2(width)
    decreases treeWidth - width
  {
    if width >= treeWidth then Some((value, cursor)) else
      var s := Sibling(start, width);
      DoublePow2(width);
      var up := Min(start, s);
      if s < count then
        match HashAt(proof, cursor)
        case None => None
        case Some(h) => Climb(count, treeWidth, proof, cursor + HASH, Above(value, h, start, s), up, 2 * width)
      else
        Climb(count, treeWidth, proof, cursor, Above(value, Reduce(seq(width, _ => ZERO_PIECE)), start, s), up, 2 * width)
  }

  /** The parent of a value and its sibling, in tree order. */
  function Above(value: Bytes, sibling: Bytes, start: nat, siblingStart: nat): (r: Bytes)
    ensures |r| == HASH
  {
    if siblingStart < start then ShaParent(sibling, value) else ShaParent(value, sibling)
  }

  /** The verifier on a tree of more than one piece. */
  predicate AcceptsTree(leaf: nat -> Bytes, root: Bytes, treeWidth: nat, count: nat, first: nat, end: nat, proof: Bytes)
    requires first <= end
  {
    var (start, width) := Window(first, end, treeWidth);
    match ReadWindow(leaf, first, end, count, proof, 0, start, start + width)
    case None => false
    case Some((nodes, c)) =>
      match Climb(count, treeWidth, proof, c, Reduce(nodes), start, width)
      case None => false
      case Some((value, c')) => c' == |proof| && value == root
  }

  method VerifyTree(leaf: nat -> Bytes, root: Bytes, treeWidth: nat, count: nat, first: nat, end: nat, proof: Bytes)
    returns (ok: bool)
    requires first <= end
    ensures ok == AcceptsTree(leaf, root, treeWidth, count, first, end, proof)
  {
    hide IsPow2, Reduce, Window, ReadWindow, Climb, HashAt;
    var start, width := ProofWindow(first, end, treeWidth);
    var reader := new HashReader(proof);
    var nodes := ReadNodes(leaf, first, end, count, reader, start, start + width);
    if nodes.None? { return false; }
    var value := ReduceHashes(nodes.value);
    var top := ClimbTree(count, treeWidth, reader, value, start, width);
    if top.None? { return false; }
    ok := reader.cursor == |proof| && top.value == root;
  }

  method ReadNodes(leaf: nat -> Bytes, first: nat, end: nat, count: nat, reader: HashReader, start: nat, stop: nat)
    returns (nodes: Option<seq<Bytes>>)
    requires start <= stop
    modifies reader
    ensures match ReadWindow(leaf, first, end, count, reader.proof, old(reader.cursor), start, stop)
            case None => nodes.None?
            case Some((ns, c)) => nodes == Some(ns) && reader.cursor == c
  {
    hide HashAt, ReadWindow;
    var read: seq<Bytes> := [];
    ghost var whole := ReadWindow(leaf, first, end, count, reader.proof, reader.cursor, start, stop);
    assert whole.Some? ==> [] + whole.value.0 == whole.value.0;
    for index := start to stop
      invariant |read| == index - start
      invariant whole == Prepend(read, ReadWindow(leaf, first, end, count, reader.proof, reader.cursor, index, stop))
    {
      ReadWindowStep(leaf, first, end, count, reader.proof, reader.cursor, index, stop);
      ghost var before := read;
      if first <= index < end {
        read := read + [leaf(index)];
      } else if index < count {
        var h := reader.ReadHash();
        if h.None? { return None; }
        read := read + [h.value];
      } else {
        read := read + [ZERO_PIECE];
      }
      PrependStep(before, read[index - start], ReadWindow(leaf, first, end, count, reader.proof, reader.cursor, index + 1, stop));
    }
    ReadWindowStep(leaf, first, end, count, reader.proof, reader.cursor, stop, stop);
    assert read + [] == read;
    nodes := Some(read);
  }

  lemma ReadWindowStep(leaf: nat -> Bytes, first: nat, end: nat, count: nat, proof: Bytes, cursor: nat,
                       index: nat, stop: nat)
    requires index <= stop
    ensures ReadWindow(leaf, first, end, count, proof, cursor, index, stop) ==
            if index == stop then Some(([], cursor))
            else if first <= index < end then
              Prepend([leaf(index)], ReadWindow(leaf, first, end, count, proof, cursor, index + 1, stop))
            else if index >= count then
              Prepend([ZERO_PIECE], ReadWindow(leaf, first, end, count, proof, cursor, index + 1, stop))
            else if HashAt(proof, cursor).None? then None
            else Prepend([HashAt(proof, cursor).value],
                         ReadWindow(leaf, first, end, count, proof, cursor + HASH, index + 1, stop))
  {
    hide HashAt;
  }

  lemma PrependStep(read: seq<Bytes>, h: Bytes, rest: Option<(seq<Bytes>, nat)>)
    ensures Prepend(read, Prepend([h], rest)) == Prepend(read + [h], rest)
  {
    if rest.Some? {
      assert read + ([h] + rest.value.0) == read + [h] + rest.value.0;
    }
  }

  ghost function Prepend(read: seq<Bytes>, rest: Option<(seq<Bytes>, nat)>): Option<(seq<Bytes>, nat)> {
    match rest
    case None => None
    case Some((nodes, c)) => Some((read + nodes, c))
  }

  method ClimbTree(count: nat, treeWidth: nat, reader: HashReader, value0: Bytes, start0: nat, width0: nat)
    returns (top: Option<Bytes>)
    requires width0 > 0 && IsPow2(width0)
    modifies reader
    ensures match Climb(count, treeWidth, reader.proof, old(reader.cursor), value0, start0, width0)
            case None => top.None?
            case Some((value, c)) => top == Some(value) && reader.cursor == c
  {
    hide HashAt, Reduce, IsPow2, Sibling, Above;
    var value, start: nat, width: nat := value0, start0, width0;
    ghost var whole := Climb(count, treeWidth, reader.proof, reader.cursor, value, start, width);
    while width < treeWidth
      invariant width > 0 && IsPow2(width)
      invariant whole == Climb(count, treeWidth, reader.proof, reader.cursor, value, start, width)
      decreases treeWidth - width
    {
      var s := Sibling(start, width);
      DoublePow2(width);
      var sibling;
      if s < count {
        var h := reader.ReadHash();
        if h.None? { return None; }
        sibling := h.value;
      } else {
        sibling := ZeroSubtree(width);
      }
      value := Above(value, sibling, start, s);
      start := Min(start, s);
      width := 2 * width;
    }
    top := Some(value);
  }

  // ----- what acceptance means

  /** The layer of an object: hashes, with zero pieces past the last piece. */
  ghost predicate IsLayer(layer: seq<Bytes>, count: nat) {
    && IsPow2(|layer|) && AllHashes(layer)
    && forall i :: count <= i < |layer| ==> layer[i] == ZERO_PIECE
  }

  ghost predicate LeavesMatch(leaf: nat -> Bytes, layer: seq<Bytes>, first: nat, end: nat, index: nat, stop: nat)
    requires stop <= |layer|
  {
    forall i: nat :: index <= i < stop && first <= i < end ==> leaf(i) == layer[i]
  }

  ghost predicate LeavesAreHashes(leaf: nat -> Bytes, first: nat, end: nat) {
    forall i: nat :: first <= i < end ==> |leaf(i)| == HASH
  }

  lemma HashRead(h: Bytes, rest: Bytes, proof: Bytes, cursor: nat)
    requires |h| == HASH
    ensures BlakeRange.At(h + rest, proof, cursor) <==>
            HashAt(proof, cursor) == Some(h) && BlakeRange.At(rest, proof, cursor + HASH)
  {
    BlakeRange.AtConcat(h, rest, proof, cursor);
  }

  /** The window read is the layer's own exactly when the covered leaves match
      and the prover's hashes come next; it always consumes the same length. */
  lemma {:induction false} ReadWindowExact(leaf: nat -> Bytes, layer: seq<Bytes>, first: nat, end: nat, count: nat,
                                           proof: Bytes, cursor: nat, index: nat, stop: nat)
    requires index <= stop <= |layer| && IsLayer(layer, count) && cursor <= |proof|
    ensures var want := WindowProof(layer, first, end, count, index, stop);
            var r := ReadWindow(leaf, first, end, count, proof, cursor, index, stop);
            && (r.Some? <==> cursor + |want| <= |proof|)
            && (r.Some? ==> r.value.1 == cursor + |want|)
            && (r.Some? && r.value.0 == layer[index..stop] <==>
                  LeavesMatch(leaf, layer, first, end, index, stop) && BlakeRange.At(want, proof, cursor))
    decreases stop - index
  {
    hide IsPow2, WindowProof, ReadWindow, HashAt, BlakeRange.At, LeavesMatch;
    WindowProofStep(layer, first, end, count, index, stop);
    ReadWindowStep(leaf, first, end, count, proof, cursor, index, stop);
    MatchStep(leaf, layer, first, end, index, stop);
    if index == stop {
      BlakeRange.AtNothing(proof, cursor);
      assert layer[index..stop] == [];
    } else {
      assert layer[index..stop] == [layer[index]] + layer[index + 1..stop];
      var rest := WindowProof(layer, first, end, count, index + 1, stop);
      if !(first <= index < end) && index < count {
        HashRead(layer[index], rest, proof, cursor);
        HashFits(proof, cursor);
        if cursor + HASH <= |proof| {
          ReadWindowExact(leaf, layer, first, end, count, proof, cursor + HASH, index + 1, stop);
          var r := ReadWindow(leaf, first, end, count, proof, cursor + HASH, index + 1, stop);
          if r.Some? { SameHead(HashAt(proof, cursor).value, layer[index], r.value.0, layer[index + 1..stop]); }
        }
      } else {
        assert [] + rest == rest;
        ReadWindowExact(leaf, layer, first, end, count, proof, cursor, index + 1, stop);
        var r := ReadWindow(leaf, first, end, count, proof, cursor, index + 1, stop);
        var node := if first <= index < end then leaf(index) else ZERO_PIECE;
        if r.Some? { SameHead(node, layer[index], r.value.0, layer[index + 1..stop]); }
      }
    }
  }

  lemma SameHead(x: Bytes, y: Bytes, a: seq<Bytes>, b: seq<Bytes>)
    ensures [x] + a == [y] + b <==> x == y && a == b
  {
    if [x] + a == [y] + b {
      assert ([x] + a)[0] == x && ([y] + b)[0] == y;
      assert ([x] + a)[1..] == a && ([y] + b)[1..] == b;
    }
  }

  lemma MatchStep(leaf: nat -> Bytes, layer: seq<Bytes>, first: nat, end: nat, index: nat, stop: nat)
    requires index <= stop <= |layer|
    ensures index == stop ==> LeavesMatch(leaf, layer, first, end, index, stop)
    ensures index < stop ==>
              (LeavesMatch(leaf, layer, first, end, index, stop) <==>
               (first <= index < end ==> leaf(index) == layer[index])
               && LeavesMatch(leaf, layer, first, end, index + 1, stop))
  {
  }

  lemma HashFits(proof: Bytes, cursor: nat)
    ensures HashAt(proof, cursor).Some? <==> cursor + HASH <= |proof|
  {
  }

  lemma AboveExact(value: Bytes, sibling: Bytes, start: nat, s: nat, width: nat, block: seq<Bytes>)
    requires width > 0 && IsPow2(width) && IsPow2(2 * width) && |block| == 2 * width && AllHashes(block)
    requires |value| == |sibling| == HASH
    ensures s + width == start ==>
              (Above(value, sibling, start, s) == Reduce(block) <==>
               value == Reduce(block[width..]) && sibling == Reduce(block[..width]))
    ensures s == start + width ==>
              (Above(value, sibling, start, s) == Reduce(block) <==>
               value == Reduce(block[..width]) && sibling == Reduce(block[width..]))
  {
    hide IsPow2, Reduce, ShaParent;
    ReduceUnfold(block);
    ReduceLength(block[..width]);
    ReduceLength(block[width..]);
    var l, r := Reduce(block[..width]), Reduce(block[width..]);
    if ShaParent(sibling, value) == ShaParent(l, r) { ShaParentInjective(sibling, value, l, r); }
    if ShaParent(value, sibling) == ShaParent(l, r) { ShaParentInjective(value, sibling, l, r); }
  }

  /** One level up: the parent is the layer's own exactly when both halves are. */
  lemma AboveLayer(layer: seq<Bytes>, b: nat, start: nat, width: nat, value: Bytes, sibling: Bytes)
    requires IsPow2(|layer|) && AllHashes(layer) && 0 < width < |layer| && IsPow2(width)
    requires start == b * width && start + width <= |layer| && |value| == |sibling| == HASH
    ensures var s := Sibling(start, width);
            && s + width <= |layer| && Min(start, s) == (b / 2) * (2 * width)
            && 2 * width <= |layer| && Min(start, s) + 2 * width <= |layer| && IsPow2(2 * width)
            && |Reduce(layer[s..s + width])| == HASH
            && (Above(value, sibling, start, s) == Reduce(layer[Min(start, s)..Min(start, s) + 2 * width]) <==>
                value == Reduce(layer[start..start + width]) && sibling == Reduce(layer[s..s + width]))
  {
    hide IsPow2, Reduce, Sibling, ShaParent, Above;
    SiblingFits(b, start, width, |layer|);
    var s := Sibling(start, width);
    var up := Min(start, s);
    var block := layer[up..up + 2 * width];
    TwoBlocks(layer, up, width);
    ReduceLength(layer[s..s + width]);
    AboveExact(value, sibling, start, s, width, block);
  }

  lemma TwoBlocks(layer: seq<Bytes>, up: nat, width: nat)
    requires up + 2 * width <= |layer|
    ensures layer[up..up + 2 * width][..width] == layer[up..up + width]
    ensures layer[up..up + 2 * width][width..] == layer[up + width..up + width + width]
  {
  }

  lemma ClimbStep(count: nat, treeWidth: nat, proof: Bytes, cursor: nat, value: Bytes, start: nat, width: nat)
    requires width > 0 && IsPow2(width)
    ensures IsPow2(2 * width)
    ensures width >= treeWidth ==> Climb(count, treeWidth, proof, cursor, value, start, width) == Some((value, cursor))
    ensures width < treeWidth ==>
              var s := Sibling(start, width);
              Climb(count, treeWidth, proof, cursor, value, start, width) ==
              if s >= count then
                Climb(count, treeWidth, proof, cursor, Above(value, Reduce(seq(width, _ => ZERO_PIECE)), start, s),
                      Min(start, s), 2 * width)
              else if HashAt(proof, cursor).None? then None
              else Climb(count, treeWidth, proof, cursor + HASH, Above(value, HashAt(proof, cursor).value, start, s),
                         Min(start, s), 2 * width)
  {
    DoublePow2(width);
    hide IsPow2, Reduce, Sibling, HashAt, Above;
  }

  /** A climb reaches the layer's root exactly when it starts from the layer's
      own block value and the prover's sibling hashes come next. */
  lemma {:induction false} ClimbExact(layer: seq<Bytes>, count: nat, proof: Bytes, cursor: nat, value: Bytes,
                                      b: nat, start: nat, width: nat)
    requires IsLayer(layer, count) && cursor <= |proof| && |value| == HASH
    requires 0 < width <= |layer| && IsPow2(width) && start == b * width && start + width <= |layer|
    ensures var want := ClimbProof(layer, count, start, width);
            var r := Climb(count, |layer|, proof, cursor, value, start, width);
            && (r.Some? <==> cursor + |want| <= |proof|)
            && (r.Some? ==> r.value.1 == cursor + |want|)
            && (r.Some? && r.value.0 == Reduce(layer) <==>
                  value == Reduce(layer[start..start + width]) && BlakeRange.At(want, proof, cursor))
    decreases |layer| - width
  {
    hide IsPow2, Reduce, Climb, HashAt, BlakeRange.At, Sibling, ShaParent, Above;
    ClimbStep(count, |layer|, proof, cursor, value, start, width);
    if width == |layer| {
      assert layer[0..width] == layer;
      BlakeRange.AtNothing(proof, cursor);
      assert start == 0 by { TopStart(b, start, width); }
    } else {
      ClimbProofStep(layer, count, b, start, width);
      hide ClimbProof, AllHashes;
      var s := Sibling(start, width);
      var up := Min(start, s);
      AboveLayer(layer, b, start, width, value, value);
      var beside, rest := Reduce(layer[s..s + width]), ClimbProof(layer, count, up, 2 * width);
      if s < count {
        HashRead(beside, rest, proof, cursor);
        HashFits(proof, cursor);
        if cursor + HASH <= |proof| {
          var h := HashAt(proof, cursor).value;
          AboveLayer(layer, b, start, width, value, h);
          ClimbExact(layer, count, proof, cursor + HASH, Above(value, h, start, s), b / 2, up, 2 * width);
        }
      } else {
        assert layer[s..s + width] == seq(width, _ => ZERO_PIECE);
        assert [] + rest == rest;
        AboveLayer(layer, b, start, width, value, beside);
        ClimbExact(layer, count, proof, cursor, Above(value, beside, start, s), b / 2, up, 2 * width);
      }
    }
  }

  lemma TopStart(b: nat, start: nat, width: nat)
    requires width > 0 && start == b * width && start + width <= width
    ensures start == 0
  {
  }

  lemma NodesAreHashes(leaf: nat -> Bytes, first: nat, end: nat, count: nat, proof: Bytes, cursor: nat,
                       index: nat, stop: nat)
    requires index <= stop && LeavesAreHashes(leaf, first, end)
    ensures var r := ReadWindow(leaf, first, end, count, proof, cursor, index, stop);
            r.Some? ==> AllHashes(r.value.0)
    decreases stop - index
  {
    hide HashAt;
    if index < stop {
      NodesAreHashes(leaf, first, end, count, proof, cursor, index + 1, stop);
      NodesAreHashes(leaf, first, end, count, proof, cursor + HASH, index + 1, stop);
    }
  }

  /** A tree verifier accepts under the layer's root exactly the layer's covered
      leaves with the prover's proof, and reads it to the last byte. */
  lemma AcceptsTreeExact(leaf: nat -> Bytes, layer: seq<Bytes>, count: nat, first: nat, end: nat, proof: Bytes)
    requires IsLayer(layer, count) && first < end <= |layer| && LeavesAreHashes(leaf, first, end)
    ensures AcceptsTree(leaf, Reduce(layer), |layer|, count, first, end, proof) <==>
            LeavesMatch(leaf, layer, first, end, 0, |layer|) && proof == Proof(layer, count, first, end)
  {
    hide IsPow2, Reduce, Window, ReadWindow, Climb, ClimbProof, WindowProof, BlakeRange.At, Block, AllHashes, LeavesMatch,
      LeavesAreHashes;
    var (start, width) := Window(first, end, |layer|);
    var b := Block(first, width);
    var w, c := WindowProof(layer, first, end, count, start, start + width), ClimbProof(layer, count, start, width);
    MatchInside(leaf, layer, first, end, start, start + width);
    ReadWindowExact(leaf, layer, first, end, count, proof, 0, start, start + width);
    BlakeRange.AtConcat(w, c, proof, 0);
    BlakeRange.WholeProof(w + c, proof);
    if BlakeRange.At(w, proof, 0) { BlakeRange.AtFits(w, proof, 0); }
    var r := ReadWindow(leaf, first, end, count, proof, 0, start, start + width);
    if r.Some? {
      NodesAreHashes(leaf, first, end, count, proof, 0, start, start + width);
      WindowValueExact(r.value.0, layer, start, width);
      ClimbExact(layer, count, proof, |w|, Reduce(r.value.0), b, start, width);
    }
  }

  /** Only the covered leaves matter, and the window holds them all. */
  lemma MatchInside(leaf: nat -> Bytes, layer: seq<Bytes>, first: nat, end: nat, start: nat, stop: nat)
    requires start <= first && end <= stop <= |layer|
    ensures LeavesMatch(leaf, layer, first, end, 0, |layer|) <==> LeavesMatch(leaf, layer, first, end, start, stop)
  {
  }

  lemma WindowValueExact(nodes: seq<Bytes>, layer: seq<Bytes>, start: nat, width: nat)
    requires AllHashes(nodes) && AllHashes(layer) && IsPow2(width)
    requires |nodes| == width && start + width <= |layer|
    ensures |Reduce(nodes)| == HASH
    ensures Reduce(nodes) == Reduce(layer[start..start + width]) <==> nodes == layer[start..start + width]
  {
    hide IsPow2, Reduce;
    ReduceLength(nodes);
    if Reduce(nodes) == Reduce(layer[start..start + width]) {
      ReduceInjective(nodes, layer[start..start + width]);
    }
  }

  // ----- ranges of bytes

  function CoveredLeaf(first: nat, covered: Bytes): nat -> Bytes {
    (i: nat) => if i < first then [] else PieceHash(Piece(covered, i - first))
  }

  /** Covered bytes that start inside a piece have fewer pieces than the range spans. */
  predicate RangeAccepted(root: Bytes, objectLength: nat, offset: nat, covered: Bytes, proof: Bytes) {
    var count := PieceCount(objectLength);
    if count == 1 then proof == [] && ShaRoot(covered) == root
    else
      var first, end := BlakeRange.FirstGroup(offset), BlakeRange.EndGroup(offset, |covered|);
      Spans(offset, |covered|);
      && end - first <= PieceCount(|covered|)
      && AcceptsTree(CoveredLeaf(first, covered), root, PaddedWidth(count), count, first, end, proof)
  }

  lemma Spans(offset: nat, n: nat)
    ensures BlakeRange.FirstGroup(offset) <= BlakeRange.EndGroup(offset, n)
    ensures offset % GROUP == 0 ==> BlakeRange.EndGroup(offset, n) - BlakeRange.FirstGroup(offset) == PieceCount(n)
  {
  }

  lemma EndWithin(length: nat, offset: nat, n: nat)
    requires BlakeRange.ValidRange(length, offset, n)
    ensures length > 0 && BlakeRange.FirstGroup(offset) < BlakeRange.EndGroup(offset, n) <= PieceCount(length)
  {
  }

  /** `verify_sha_range`: checks covered bytes against a root. */
  method VerifyRange(root: Bytes, objectLength: nat, offset: nat, covered: Bytes, proof: Bytes) returns (ok: bool)
    ensures ok == RangeAccepted(root, objectLength, offset, covered, proof)
  {
    hide AcceptsTree, PaddedWidth, ShaRoot, BlakeRange.FirstGroup, BlakeRange.EndGroup;
    var count := PieceCount(objectLength);
    if count == 1 {
      return proof == [] && ShaRoot(covered) == root;
    }
    Spans(offset, |covered|);
    var first, end := BlakeRange.FirstGroup(offset), BlakeRange.EndGroup(offset, |covered|);
    if end - first > PieceCount(|covered|) { return false; }
    ok := VerifyTree(CoveredLeaf(first, covered), root, PaddedWidth(count), count, first, end, proof);
  }

  lemma CoveredPiece(data: Bytes, offset: nat, covered: Bytes, i: nat)
    requires BlakeRange.ValidRange(|data|, offset, |covered|)
    requires BlakeRange.FirstGroup(offset) <= i < BlakeRange.EndGroup(offset, |covered|)
    ensures var lo := (i - BlakeRange.FirstGroup(offset)) * GROUP;
            var hi := Bound(lo + GROUP, |covered|);
            && lo < hi <= |covered|
            && Piece(covered, i - BlakeRange.FirstGroup(offset)) == covered[lo..hi]
            && Piece(data, i) == data[offset + lo..offset + hi]
  {
  }

  lemma CoveredPieceExact(data: Bytes, offset: nat, covered: Bytes, i: nat)
    requires BlakeRange.ValidRange(|data|, offset, |covered|)
    requires BlakeRange.FirstGroup(offset) <= i < BlakeRange.EndGroup(offset, |covered|)
    ensures CoveredLeaf(BlakeRange.FirstGroup(offset), covered)(i) == PieceHash(Piece(data, i)) <==>
            Piece(covered, i - BlakeRange.FirstGroup(offset)) == Piece(data, i)
  {
    hide PieceHash, Piece;
    CoveredPiece(data, offset, covered, i);
    var mine, theirs := Piece(covered, i - BlakeRange.FirstGroup(offset)), Piece(data, i);
    if PieceHash(mine) == PieceHash(theirs) { PieceHashInjective(mine, theirs); }
  }

  lemma SamePiece(data: Bytes, offset: nat, covered: Bytes, k: nat) returns (i: nat)
    requires BlakeRange.ValidRange(|data|, offset, |covered|) && k < |covered|
    ensures BlakeRange.FirstGroup(offset) <= i < BlakeRange.EndGroup(offset, |covered|)
    ensures Piece(covered, i - BlakeRange.FirstGroup(offset)) == Piece(data, i) ==> covered[k] == data[offset + k]
  {
    i := (offset + k) / GROUP;
    hide Piece;
    CoveredPiece(data, offset, covered, i);
    var lo := (i - BlakeRange.FirstGroup(offset)) * GROUP;
    var hi := Bound(lo + GROUP, |covered|);
    if covered[lo..hi] == data[offset + lo..offset + hi] {
      assert covered[lo..hi][k - lo] == data[offset + lo..offset + hi][k - lo];
    }
  }

  lemma SameBytesSamePiece(data: Bytes, offset: nat, covered: Bytes, i: nat)
    requires BlakeRange.ValidRange(|data|, offset, |covered|) && covered == data[offset..offset + |covered|]
    requires BlakeRange.FirstGroup(offset) <= i < BlakeRange.EndGroup(offset, |covered|)
    ensures Piece(covered, i - BlakeRange.FirstGroup(offset)) == Piece(data, i)
  {
    hide Piece;
    CoveredPiece(data, offset, covered, i);
    var lo := (i - BlakeRange.FirstGroup(offset)) * GROUP;
    SubSlice(data, covered, offset, lo, Bound(lo + GROUP, |covered|));
  }

  lemma LayerIs(data: Bytes)
    requires data != []
    ensures IsLayer(Layer(data), PieceCount(|data|))
    ensures forall i: nat :: i < PieceCount(|data|) ==> Layer(data)[i] == PieceHash(Piece(data, i))
  {
    hide PieceHash, Piece, IsPow2;
    LayerHashes(data);
  }

  /** The covered leaves are the layer's exactly when the covered bytes are the object's. */
  lemma CoveredExact(data: Bytes, offset: nat, covered: Bytes)
    requires BlakeRange.ValidRange(|data|, offset, |covered|)
    ensures LeavesMatch(CoveredLeaf(BlakeRange.FirstGroup(offset), covered), Layer(data),
                        BlakeRange.FirstGroup(offset), BlakeRange.EndGroup(offset, |covered|), 0, |Layer(data)|)
            <==> covered == data[offset..offset + |covered|]
  {
    EndWithin(|data|, offset, |covered|);
    LayerIs(data);
    hide CoveredLeaf, PieceHash, Piece, Layer, BlakeRange.FirstGroup, BlakeRange.EndGroup, IsLayer;
    var first, end := BlakeRange.FirstGroup(offset), BlakeRange.EndGroup(offset, |covered|);
    var leaf := CoveredLeaf(first, covered);
    if LeavesMatch(leaf, Layer(data), first, end, 0, |Layer(data)|) {
      forall k | 0 <= k < |covered| ensures covered[k] == data[offset + k] {
        var i := SamePiece(data, offset, covered, k);
        CoveredPieceExact(data, offset, covered, i);
      }
    }
    if covered == data[offset..offset + |covered|] {
      forall i: nat | first <= i < end ensures leaf(i) == Layer(data)[i] {
        SameBytesSamePiece(data, offset, covered, i);
        CoveredPieceExact(data, offset, covered, i);
      }
    }
  }

  lemma CoveredLeavesAreHashes(first: nat, end: nat, covered: Bytes)
    ensures LeavesAreHashes(CoveredLeaf(first, covered), first, end)
  {
    hide Leaves, Piece;
    forall i: nat | first <= i < end ensures |CoveredLeaf(first, covered)(i)| == HASH {
      assert IsPow2(4);
      ReduceLength(Leaves(Piece(covered, i - first), 4));
    }
  }

  /** A range is accepted under the object's root exactly when its bytes are
      the object's bytes and its proof is the prover's proof. */
  lemma RangeExact(data: Bytes, offset: nat, covered: Bytes, proof: Bytes)
    requires BlakeRange.ValidRange(|data|, offset, |covered|)
    ensures BlakeRange.FirstGroup(offset) < BlakeRange.EndGroup(offset, |covered|) <= PieceCount(|data|)
    ensures RangeAccepted(ShaRoot(data), |data|, offset, covered, proof) <==>
            covered == data[offset..offset + |covered|] && proof == RangeProof(data, offset, |covered|)
  {
    EndWithin(|data|, offset, |covered|);
    hide ShaRoot, AcceptsTree, Proof, CoveredLeaf, LeavesMatch, Layer, Reduce, BlakeRange.FirstGroup, BlakeRange.EndGroup;
    if PieceCount(|data|) == 1 {
      OnePiece(|data|, offset, |covered|);
      assert data[0..|data|] == data;
      if ShaRoot(covered) == ShaRoot(data) { ShaRootInjective(covered, data); }
    } else {
      var first, end := BlakeRange.FirstGroup(offset), BlakeRange.EndGroup(offset, |covered|);
      hide RangeAccepted, PieceCount, BlakeRange.ValidRange;
      LayerIs(data);
      PieceTree(data);
      CoveredLeavesAreHashes(first, end, covered);
      AcceptedInTree(ShaRoot(data), data, offset, covered, proof);
      AcceptsTreeExact(CoveredLeaf(first, covered), Layer(data), PieceCount(|data|), first, end, proof);
      CoveredExact(data, offset, covered);
    }
  }

  lemma OnePiece(length: nat, offset: nat, n: nat)
    requires BlakeRange.ValidRange(length, offset, n) && PieceCount(length) == 1
    ensures offset == 0 && n == length
  {
  }

  /** On a valid range of several pieces, the verifier is the one over the object's layer. */
  lemma AcceptedInTree(root: Bytes, data: Bytes, offset: nat, covered: Bytes, proof: Bytes)
    requires BlakeRange.ValidRange(|data|, offset, |covered|) && PieceCount(|data|) > 1
    ensures var first, end := BlakeRange.FirstGroup(offset), BlakeRange.EndGroup(offset, |covered|);
            && first <= end
            && (RangeAccepted(root, |data|, offset, covered, proof)
                <==> AcceptsTree(CoveredLeaf(first, covered), root, |Layer(data)|, PieceCount(|data|), first, end, proof))
  {
    hide AcceptsTree, CoveredLeaf;
    Spans(offset, |covered|);
    AlignedOffset(|data|, offset, |covered|);
  }

  lemma AlignedOffset(length: nat, offset: nat, n: nat)
    requires BlakeRange.ValidRange(length, offset, n)
    ensures offset % GROUP == 0 && length > 0
  {
  }

  // ----- the size of a proof

  lemma {:induction false} WindowProofSize(layer: seq<Bytes>, first: nat, end: nat, count: nat, index: nat, stop: nat)
    returns (n: nat)
    requires index <= stop <= |layer| && AllHashes(layer)
    ensures |WindowProof(layer, first, end, count, index, stop)| == 32 * n && n <= stop - index
    ensures index <= first < stop && first < end ==> n < stop - index
    decreases stop - index
  {
    hide WindowProof;
    WindowProofStep(layer, first, end, count, index, stop);
    n := 0;
    if index < stop {
      var m := WindowProofSize(layer, first, end, count, index + 1, stop);
      n := m + (if !(first <= index < end) && index < count then 1 else 0);
    }
  }

  lemma {:induction false} ClimbProofSize(layer: seq<Bytes>, count: nat, b: nat, start: nat, width: nat, m: nat, h: nat)
    returns (n: nat)
    requires IsPow2(|layer|) && AllHashes(layer) && IsPow2(width)
    requires width == Pow2(m) && |layer| == Pow2(h) && m <= h && start == b * width && start + width <= |layer|
    ensures |ClimbProof(layer, count, start, width)| == 32 * n && n <= h - m
    decreases h - m
  {
    hide IsPow2, Reduce, Sibling, Pow2;
    n := 0;
    if m < h {
      Pow2Monotone(m, h);
      Pow2Next(m);
      SiblingFits(b, start, width, |layer|);
      ClimbProofStep(layer, count, b, start, width);
      hide ClimbProof;
      var s := Sibling(start, width);
      ReduceLength(layer[s..s + width]);
      var l := ClimbProofSize(layer, count, b / 2, Min(start, s), 2 * width, m + 1, h);
      n := l + (if s < count then 1 else 0);
    }
  }

  lemma Is64Pow2()
    ensures IsPow2(64)
  {
    assert IsPow2(4);
    DoublePow2(4);
    DoublePow2(16);
  }

  /** Pieces aligned at 64, no more than 64 of them: the first width tried is at most 64 and holds them. */
  lemma AlignedWidth(first: nat, end: nat, treeWidth: nat)
    requires first % 64 == 0 && first < end <= first + 64 && end <= treeWidth && IsPow2(treeWidth)
    ensures var width := FirstWidth(first, end, treeWidth);
            width <= 64 && Floor(first, width) == first && end <= first + width
  {
    Is64Pow2();
    hide IsPow2, TreeWidth;
    var width := FirstWidth(first, end, treeWidth);
    if TreeWidth(end - first) > 64 { Pow2Gap(64, TreeWidth(end - first)); }
    var q := Quotient(width, 64);
    var a := first / 64;
    assert first == a * 64;
    Regroup(a, q, width);
    BlockIndex(a * q, width);
  }

  lemma Regroup(a: nat, q: nat, width: nat)
    ensures a * (q * width) == (a * q) * width
  {
  }

  lemma AlignedWindow(first: nat, end: nat, treeWidth: nat)
    requires first % 64 == 0 && first < end <= first + 64 && end <= treeWidth && IsPow2(treeWidth)
    ensures Window(first, end, treeWidth).1 <= 64
  {
    hide IsPow2, FirstWidth, Floor;
    AlignedWidth(first, end, treeWidth);
    FirstWidthFits(first, end, treeWidth);
  }

  /** A proof of at most 64 pieces, aligned at 64, in a tree of height h holds
      fewer than 64 window hashes and at most h siblings. */
  lemma ProofSize(layer: seq<Bytes>, count: nat, first: nat, end: nat, h: nat)
    requires IsPow2(|layer|) && AllHashes(layer) && |layer| == Pow2(h)
    requires first % 64 == 0 && first < end <= first + 64 && end <= |layer|
    ensures |Proof(layer, count, first, end)| <= 32 * (63 + h)
    ensures |Proof(layer, count, first, end)| % 32 == 0
  {
    var n := ProofHashes(layer, count, first, end, h);
    Multiple(n);
  }

  lemma Multiple(n: nat)
    ensures (32 * n) % 32 == 0
  {
  }

  lemma ProofHashes(layer: seq<Bytes>, count: nat, first: nat, end: nat, h: nat) returns (n: nat)
    requires IsPow2(|layer|) && AllHashes(layer) && |layer| == Pow2(h)
    requires first % 64 == 0 && first < end <= first + 64 && end <= |layer|
    ensures |Proof(layer, count, first, end)| == 32 * n && n <= 63 + h
  {
    hide IsPow2, Window, WindowProof, ClimbProof, Pow2, Block, AllHashes;
    AlignedWindow(first, end, |layer|);
    var (start, width) := Window(first, end, |layer|);
    var w := WindowProofSize(layer, first, end, count, start, start + width);
    var m := Below(width, |layer|, h);
    var c := ClimbProofSize(layer, count, Block(first, width), start, width, m, h);
    n := w + c;
  }

  lemma Below(width: nat, treeWidth: nat, h: nat) returns (m: nat)
    requires IsPow2(width) && width <= treeWidth == Pow2(h)
    ensures width == Pow2(m) && m <= h
  {
    hide IsPow2, Pow2;
    m := Exponent(width);
    if m > h { Pow2Monotone(h, m); }
  }

  // ----- the order of a proof

  lemma SmallPow2()
    ensures IsPow2(1) && IsPow2(2) && IsPow2(4) && IsPow2(8)
  {
  }

  /** Eight pieces: the other leaves of the window, then the sibling of each
      block on the way up. Past the last piece nothing is written. */
  lemma EightPieces(layer: seq<Bytes>)
    requires |layer| == 8
    ensures IsPow2(8) && IsPow2(2) && IsPow2(4)
    ensures Proof(layer, 8, 2, 3) == layer[3] + (Reduce(layer[0..2]) + Reduce(layer[4..8]))
    ensures Proof(layer, 7, 6, 7) == Reduce(layer[4..6]) + Reduce(layer[0..4])
  {
    SmallPow2();
    hide IsPow2, Reduce, Window, ClimbProof, WindowProof;
    WindowHere(2, 8);
    WindowHere(6, 8);
    OtherLeaf(layer, 8, 2);
    OtherLeaf(layer, 7, 6);
    ThirdClimb(layer);
    LastClimb(layer);
    var climb := Reduce(layer[4..6]) + Reduce(layer[0..4]);
    hide Proof;
    ProofIs(layer, 8, 2, 3);
    ProofIs(layer, 7, 6, 7);
    assert [] + climb == climb;
  }

  lemma ProofIs(layer: seq<Bytes>, count: nat, first: nat, end: nat)
    requires IsPow2(|layer|) && first < end <= |layer|
    ensures var w := Window(first, end, |layer|);
            Proof(layer, count, first, end)
            == WindowProof(layer, first, end, count, w.0, w.0 + w.1) + ClimbProof(layer, count, w.0, w.1)
  {
    hide IsPow2, WindowProof, ClimbProof, Window;
  }

  lemma OtherLeaf(layer: seq<Bytes>, count: nat, first: nat)
    requires first + 2 <= |layer|
    ensures WindowProof(layer, first, first + 1, count, first, first + 2)
         == if first + 1 < count then layer[first + 1] else []
  {
    hide WindowProof;
    WindowProofStep(layer, first, first + 1, count, first, first + 2);
    WindowProofStep(layer, first, first + 1, count, first + 1, first + 2);
    WindowProofStep(layer, first, first + 1, count, first + 2, first + 2);
    assert layer[first + 1] + [] == layer[first + 1];
  }

  lemma ThirdClimb(layer: seq<Bytes>)
    requires |layer| == 8
    ensures IsPow2(2) && IsPow2(4)
    ensures ClimbProof(layer, 8, 2, 2) == Reduce(layer[0..2]) + Reduce(layer[4..8])
  {
    SmallPow2();
    hide IsPow2, Reduce, ClimbProof;
    ClimbUp(layer, 8, 2, 2);
    ClimbUp(layer, 8, 0, 4);
    ClimbUp(layer, 8, 0, 8);
    assert Reduce(layer[4..8]) + [] == Reduce(layer[4..8]);
  }

  lemma LastClimb(layer: seq<Bytes>)
    requires |layer| == 8
    ensures IsPow2(2) && IsPow2(4)
    ensures ClimbProof(layer, 7, 6, 2) == Reduce(layer[4..6]) + Reduce(layer[0..4])
  {
    SmallPow2();
    hide IsPow2, Reduce, ClimbProof;
    ClimbUp(layer, 7, 6, 2);
    ClimbUp(layer, 7, 4, 4);
    ClimbUp(layer, 7, 0, 8);
    assert Reduce(layer[0..4]) + [] == Reduce(layer[0..4]);
  }

  lemma ClimbUp(layer: seq<Bytes>, count: nat, start: nat, width: nat)
    requires width > 0 && IsPow2(width)
    ensures width >= |layer| ==> ClimbProof(layer, count, start, width) == []
    ensures width < |layer| ==>
              var s := Sibling(start, width);
              && IsPow2(2 * width)
              && ClimbProof(layer, count, start, width)
                 == (if s < count && s + width <= |layer| then Reduce(layer[s..s + width]) else [])
                    + ClimbProof(layer, count, Min(start, s), 2 * width)
  {
    hide Reduce, Sibling;
    DoublePow2(width);
  }

  lemma WindowHere(first: nat, treeWidth: nat)
    requires first % 2 == 0 && treeWidth > 1
    ensures Window(first, first + 1, treeWidth) == (first, 2)
  {
    assert Pow2(0) == 1 && TreeWidth(1) == 1;
    assert Floor(first, 2) == first;
  }
}
