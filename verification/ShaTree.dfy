/** The SHA-256 tree of BEP 52: 16 KiB leaves, zero-padded to a power of two,
    and the same tree grouped at 64 KiB pieces. */
module ShaTree {
  import opened Powers
  import opened Hashing

  const LEAF := 16384
  const GROUP := 65536
  const ZERO_HASH := Zeros(HASH)

  function ShaParent(left: Bytes, right: Bytes): (r: Bytes)
    ensures |r| == HASH
  {
    Output(Sha(left + right))
  }

  lemma ShaParentInjective(l: Bytes, r: Bytes, l': Bytes, r': Bytes)
    requires |l| == |l'| && ShaParent(l, r) == ShaParent(l', r')
    ensures l == l' && r == r'
  {
    hide Output;
    OutputInjective(Sha(l + r), Sha(l' + r'));
    assert l == (l + r)[..|l|] == (l' + r')[..|l|] == l';
    assert r == (l + r)[|l|..] == (l' + r')[|l|..] == r';
  }

  // ----- reducing a power-of-two layer

  predicate IsPow2(n: nat) {
    n == 1 || (n > 1 && n % 2 == 0 && IsPow2(n / 2))
  }

  lemma {:induction false} Pow2IsPow2(m: nat)
    ensures IsPow2(Pow2(m))
  {
    if m > 0 {
      Pow2IsPow2(m - 1);
      Pow2Next(m - 1);
      hide Pow2;
      assert Pow2(m) % 2 == 0 && Pow2(m) / 2 == Pow2(m - 1);
    }
  }

  lemma {:induction false} Exponent(n: nat) returns (m: nat)
    requires IsPow2(n)
    ensures n == Pow2(m)
  {
    if n == 1 {
      m := 0;
    } else {
      var h := Exponent(n / 2);
      m := h + 1;
    }
  }

  /** The root of a layer, by halves. */
  function Reduce(nodes: seq<Bytes>): Bytes
    requires IsPow2(|nodes|)
    decreases |nodes|
  {
    if |nodes| == 1 then nodes[0] else
      var h := |nodes| / 2;
      ShaParent(Reduce(nodes[..h]), Reduce(nodes[h..]))
  }

  /** One round of `reduce_hashes`: h neighbouring pairs hashed together. */
  function PairUp(nodes: seq<Bytes>, h: nat): (r: seq<Bytes>)
    requires |nodes| == 2 * h
    ensures |r| == h
  {
    seq(h, i requires 0 <= i < h => ShaParent(nodes[2 * i], nodes[2 * i + 1]))
  }

  lemma PairUpHalves(nodes: seq<Bytes>, v: nat)
    requires |nodes| == 4 * v
    ensures PairUp(nodes, 2 * v)[..v] == PairUp(nodes[..2 * v], v)
    ensures PairUp(nodes, 2 * v)[v..] == PairUp(nodes[2 * v..], v)
  {
    hide ShaParent;
    forall i | 0 <= i < v ensures PairUp(nodes, 2 * v)[v..][i] == PairUp(nodes[2 * v..], v)[i] {
      assert nodes[2 * v..][2 * i] == nodes[2 * (v + i)] && nodes[2 * v..][2 * i + 1] == nodes[2 * (v + i) + 1];
    }
  }

  /** Hashing neighbours first gives the same root. */
  lemma {:induction false} ReducePairUp(nodes: seq<Bytes>, h: nat)
    requires IsPow2(h) && |nodes| == 2 * h
    ensures IsPow2(2 * h) && Reduce(PairUp(nodes, h)) == Reduce(nodes)
    decreases h
  {
    hide ShaParent, Reduce, IsPow2, PairUp;
    DoublePow2(h);
    if h == 1 {
      OnePair(nodes);
    } else {
      var v := Half(h);
      ReducePairUp(nodes[..2 * v], v);
      ReducePairUp(nodes[2 * v..], v);
      PairUpHalves(nodes, v);
      DoublePow2(v);
      ReduceHalves(nodes, 2 * v);
      ReduceHalves(PairUp(nodes, 2 * v), v);
    }
  }

  lemma OnePair(nodes: seq<Bytes>)
    requires |nodes| == 2
    ensures IsPow2(1) && IsPow2(2) && Reduce(PairUp(nodes, 1)) == Reduce(nodes)
  {
    hide ShaParent, Reduce;
    ReduceUnfold(nodes);
    ReduceUnfold(PairUp(nodes, 1));
    ReduceUnfold(nodes[..1]);
    ReduceUnfold(nodes[1..]);
  }

  lemma Half(n: nat) returns (v: nat)
    requires IsPow2(n) && n > 1
    ensures n == 2 * v && v > 0 && IsPow2(v)
  {
    v := n / 2;
  }

  /** A layer's root, from the roots of its halves. */
  lemma ReduceHalves(nodes: seq<Bytes>, h: nat)
    requires |nodes| == 2 * h && h > 0 && IsPow2(h) && IsPow2(2 * h)
    ensures Reduce(nodes) == ShaParent(Reduce(nodes[..h]), Reduce(nodes[h..]))
  {
    hide ShaParent, Reduce, IsPow2;
    ReduceUnfold(nodes);
  }

  method ReduceHashes(layer: seq<Bytes>) returns (root: Bytes)
    requires IsPow2(|layer|)
    ensures root == Reduce(layer)
  {
    hide Reduce, PairUp;
    var nodes := layer;
    while |nodes| > 1
      invariant IsPow2(|nodes|) && Reduce(nodes) == Reduce(layer)
      decreases |nodes|
    {
      var h := |nodes| / 2;
      ReducePairUp(nodes, h);
      nodes := PairUp(nodes, h);
    }
    root := nodes[0];
    ReduceUnfold(nodes);
  }

  ghost predicate AllHashes(nodes: seq<Bytes>) {
    forall i :: 0 <= i < |nodes| ==> |nodes[i]| == HASH
  }

  lemma ReduceLength(nodes: seq<Bytes>)
    requires IsPow2(|nodes|) && AllHashes(nodes)
    ensures |Reduce(nodes)| == HASH
  {
  }

  /** A layer is determined by its root. */
  lemma {:induction false} ReduceInjective(a: seq<Bytes>, b: seq<Bytes>)
    requires IsPow2(|a|) && |a| == |b| && AllHashes(a) && AllHashes(b)
    requires Reduce(a) == Reduce(b)
    ensures a == b
    decreases |a|
  {
    hide ShaParent, Reduce, IsPow2;
    ReduceUnfold(a); ReduceUnfold(b);
    if |a| > 1 {
      var h := |a| / 2;
      HalfPow2(|a|);
      ReduceLength(a[..h]); ReduceLength(b[..h]);
      ShaParentInjective(Reduce(a[..h]), Reduce(a[h..]), Reduce(b[..h]), Reduce(b[h..]));
      ReduceInjective(a[..h], b[..h]);
      ReduceInjective(a[h..], b[h..]);
      assert a == a[..h] + a[h..] && b == b[..h] + b[h..];
    }
  }

  /** The roots of w groups of four. */
  function Quads(nodes: seq<Bytes>, w: nat): (r: seq<Bytes>)
    requires |nodes| == 4 * w
    ensures |r| == w
  {
    seq(w, i requires 0 <= i < w => Reduce(nodes[4 * i..4 * i + 4]))
  }

  lemma HalfPow2(n: nat)
    requires IsPow2(n) && n > 1
    ensures n == 2 * (n / 2) && 0 < n / 2 < n && IsPow2(n / 2)
  {
  }

  lemma DoublePow2(w: nat)
    requires IsPow2(w)
    ensures IsPow2(2 * w) && IsPow2(4 * w)
  {
  }

  /** Reducing four at a time gives the same root. */
  lemma {:induction false} ReduceQuads(nodes: seq<Bytes>, w: nat)
    requires IsPow2(w) && |nodes| == 4 * w
    ensures IsPow2(4 * w) && Reduce(Quads(nodes, w)) == Reduce(nodes)
    decreases w
  {
    hide ShaParent, Reduce, Quads, IsPow2;
    DoublePow2(w);
    if w == 1 {
      OneQuad(nodes);
    } else {
      var v := Half(w);
      ReduceQuads(nodes[..4 * v], v);
      ReduceQuads(nodes[4 * v..], v);
      QuadsHalves(nodes, v);
      DoublePow2(4 * v);
      ReduceHalves(nodes, 4 * v);
      ReduceHalves(Quads(nodes, 2 * v), v);
    }
  }

  lemma ReduceUnfold(nodes: seq<Bytes>)
    requires IsPow2(|nodes|)
    ensures |nodes| == 1 ==> Reduce(nodes) == nodes[0]
    ensures |nodes| > 1 ==>
              Reduce(nodes) == ShaParent(Reduce(nodes[..|nodes| / 2]), Reduce(nodes[|nodes| / 2..]))
  {
    hide ShaParent;
  }

  lemma OneQuad(nodes: seq<Bytes>)
    requires |nodes| == 4
    ensures IsPow2(1) && IsPow2(4) && Reduce(Quads(nodes, 1)) == Reduce(nodes)
  {
    hide Reduce;
    assert nodes[0..4] == nodes;
    ReduceUnfold(Quads(nodes, 1));
  }

  lemma QuadsHalves(nodes: seq<Bytes>, v: nat)
    requires |nodes| == 8 * v
    ensures Quads(nodes, 2 * v)[..v] == Quads(nodes[..4 * v], v)
    ensures Quads(nodes, 2 * v)[v..] == Quads(nodes[4 * v..], v)
  {
    hide Quads;
    assert nodes[0..4 * v] == nodes[..4 * v] && nodes[4 * v..8 * v] == nodes[4 * v..];
    forall i: nat | i < v ensures Quads(nodes, 2 * v)[..v][i] == Quads(nodes[..4 * v], v)[i] {
      QuadIn(nodes, 2 * v, 0, v, i);
    }
    forall i: nat | i < v ensures Quads(nodes, 2 * v)[v..][i] == Quads(nodes[4 * v..], v)[i] {
      QuadIn(nodes, 2 * v, v, v, i);
    }
  }

  /** A group of four is the same group within part of the layer. */
  lemma QuadIn(nodes: seq<Bytes>, w: nat, from: nat, v: nat, i: nat)
    requires |nodes| == 4 * w && from + v <= w && i < v
    ensures Quads(nodes[4 * from..4 * from + 4 * v], v)[i] == Quads(nodes, w)[from + i]
  {
    hide Reduce;
    SubSlice(nodes, nodes[4 * from..4 * from + 4 * v], 4 * from, 4 * i, 4 * i + 4);
    assert 4 * from + 4 * i == 4 * (from + i);
  }

  // ----- leaves and pieces

  /** The padded width of a layer of n nodes: the least power of two not below n. */
  function TreeWidth(n: nat): (r: nat)
    requires n > 0
    ensures n <= r < 2 * n && IsPow2(r)
  {
    BitLengthBounds(n - 1);
    Pow2IsPow2(BitLength(n - 1));
    Pow2(BitLength(n - 1))
  }

  function LeafCount(length: nat): nat {
    CeilDiv(length, LEAF)
  }

  function PieceCount(length: nat): nat {
    CeilDiv(length, GROUP)
  }

  function Leaf(data: Bytes, i: nat): (r: Bytes)
    ensures |r| == HASH
  {
    Output(Sha(Slice(data, i * LEAF, i * LEAF + LEAF)))
  }

  /** n leaves, zero hashes past the end of the data. */
  function Leaves(data: Bytes, n: nat): (r: seq<Bytes>)
    ensures |r| == n && AllHashes(r)
  {
    seq(n, (i: nat) => if i < LeafCount(|data|) then Leaf(data, i) else ZERO_HASH)
  }

  function ShaRoot(data: Bytes): Bytes {
    if data == [] then Output(Sha(data)) else
      Reduce(Leaves(data, TreeWidth(LeafCount(|data|))))
  }

  function PieceHash(piece: Bytes): Bytes
    requires |piece| <= GROUP
  {
    assert IsPow2(4);
    Reduce(Leaves(piece, 4))
  }

  const ZERO_PIECE := ShaParent(ShaParent(ZERO_HASH, ZERO_HASH), ShaParent(ZERO_HASH, ZERO_HASH))

  function Piece(data: Bytes, i: nat): (r: Bytes)
    ensures |r| <= GROUP
  {
    SliceLength(data, i * GROUP, i * GROUP + GROUP);
    Slice(data, i * GROUP, i * GROUP + GROUP)
  }

  /** The piece layer, padded with zero pieces to the tree width. */
  function Layer(data: Bytes): (r: seq<Bytes>)
    requires data != []
    ensures |r| == TreeWidth(PieceCount(|data|))
  {
    seq(TreeWidth(PieceCount(|data|)), (i: nat) => if i < PieceCount(|data|) then PieceHash(Piece(data, i)) else ZERO_PIECE)
  }

  lemma LayerHashes(data: Bytes)
    requires data != []
    ensures AllHashes(Layer(data))
  {
    forall i: nat | i < |Layer(data)| ensures |Layer(data)[i]| == HASH {
      hide Reduce, Leaves;
      if i < PieceCount(|data|) {
        assert IsPow2(4);
        ReduceLength(Leaves(Piece(data, i), 4));
      } else {
        assert Layer(data)[i] == ZERO_PIECE;
      }
    }
  }

  lemma WidthScales(length: nat)
    requires length > GROUP
    ensures TreeWidth(LeafCount(length)) == 4 * TreeWidth(PieceCount(length))
  {
    hide Pow2, BitLength, PieceCount, LeafCount;
    var pieces, leaves := PieceCount(length), LeafCount(length);
    LeavesOfPieces(length);
    BitLengthBounds(pieces - 1);
    var m := BitLength(pieces - 1);
    Pow2At2();
    Pow2Sum(2, m);
    Pow2Sum(2, m - 1);
    BitLengthUnique(leaves, 2 + m);
  }

  lemma LeavesOfPieces(length: nat)
    requires length > GROUP
    ensures var pieces, leaves := PieceCount(length), LeafCount(length);
            pieces > 1 && 4 * (pieces - 1) < leaves <= 4 * pieces
  {
  }

  lemma Pow2At2()
    ensures Pow2(2) == 4
  {
  }

  lemma SliceOfSlice<T>(data: seq<T>, lo: nat, hi: nat, a: nat, b: nat)
    requires lo <= hi && a <= b && lo + b <= hi
    ensures Slice(Slice(data, lo, hi), a, b) == Slice(data, lo + a, lo + b)
  {
    var n := |data|;
    var l, h := Bound(lo, n), Bound(hi, n);
    var part := data[l..h];
    assert Slice(data, lo, hi) == part;
    var x, y := Bound(a, h - l), Bound(b, h - l);
    assert Slice(part, a, b) == part[x..y];
    assert Slice(data, lo + a, lo + b) == data[Bound(lo + a, n)..Bound(lo + b, n)];
    hide Slice, Bound;
    SubSlice(data, part, l, x, y);
  }

  lemma LeafCountAbove(length: nat, t: nat)
    ensures t < LeafCount(length) <==> t * LEAF < length
    ensures t < PieceCount(length) <==> t * GROUP < length
  {
  }

  lemma PieceLength(data: Bytes, i: nat)
    requires i * GROUP < |data|
    ensures |Piece(data, i)| == if i * GROUP + GROUP <= |data| then GROUP else |data| - i * GROUP
  {
  }

  /** The leaves under piece i are that piece's own leaves. */
  lemma PieceLeaf(data: Bytes, n: nat, i: nat, j: nat)
    requires i * GROUP < |data| && 4 * i + 4 <= n && j < 4
    ensures Leaves(data, n)[4 * i + j] == Leaves(Piece(data, i), 4)[j]
  {
    hide LeafCount, Slice, Output;
    var piece := Piece(data, i);
    PieceLength(data, i);
    LeafCountAbove(|data|, 4 * i + j);
    LeafCountAbove(|piece|, j);
    assert (4 * i + j) * LEAF == i * GROUP + j * LEAF;
    SliceOfSlice(data, i * GROUP, i * GROUP + GROUP, j * LEAF, j * LEAF + LEAF);
  }

  lemma PieceLeaves(data: Bytes, n: nat, i: nat)
    requires i * GROUP < |data| && 4 * i + 4 <= n
    ensures Leaves(data, n)[4 * i..4 * i + 4] == Leaves(Piece(data, i), 4)
  {
    hide Leaves;
    forall j: nat | j < 4 ensures Leaves(data, n)[4 * i..4 * i + 4][j] == Leaves(Piece(data, i), 4)[j] {
      PieceLeaf(data, n, i, j);
    }
  }

  lemma ZeroPieceIs(nodes: seq<Bytes>)
    requires |nodes| == 4 && forall j :: 0 <= j < 4 ==> nodes[j] == ZERO_HASH
    ensures Reduce(nodes) == ZERO_PIECE
  {
    hide ShaParent;
    var l, r := nodes[..2], nodes[2..];
    assert Reduce(l) == ShaParent(ZERO_HASH, ZERO_HASH) == Reduce(r);
  }

  lemma PieceQuad(data: Bytes, w: nat, i: nat)
    requires data != [] && w == TreeWidth(PieceCount(|data|)) && i < w
    ensures Quads(Leaves(data, 4 * w), w)[i] == Layer(data)[i]
  {
    hide Reduce, Slice, TreeWidth, LeafCount, PieceCount, Leaves;
    var quad := Leaves(data, 4 * w)[4 * i..4 * i + 4];
    assert Quads(Leaves(data, 4 * w), w)[i] == Reduce(quad);
    hide Quads;
    LeafCountAbove(|data|, i);
    if i < PieceCount(|data|) {
      PieceLeaves(data, 4 * w, i);
    } else {
      ZeroQuad(data, w, i);
      ZeroPieceIs(quad);
    }
  }

  /** Past the last piece the leaves are padding. */
  lemma ZeroQuad(data: Bytes, w: nat, i: nat)
    requires PieceCount(|data|) <= i < w
    ensures var quad := Leaves(data, 4 * w)[4 * i..4 * i + 4];
            forall j :: 0 <= j < 4 ==> quad[j] == ZERO_HASH
  {
    hide Reduce, Slice, LeafCount, PieceCount;
    LeafCountAbove(|data|, i);
    var quad := Leaves(data, 4 * w)[4 * i..4 * i + 4];
    forall j | 0 <= j < 4 ensures quad[j] == ZERO_HASH {
      LeafCountAbove(|data|, 4 * i + j);
    }
  }

  /** Above one piece, the zero-padded piece tree is the BEP 52 root. */
  lemma PieceTree(data: Bytes)
    requires |data| > GROUP
    ensures ShaRoot(data) == Reduce(Layer(data))
  {
    WidthScales(|data|);
    hide Reduce, TreeWidth, Leaves, Quads, Layer;
    var w := TreeWidth(PieceCount(|data|));
    var leaves := Leaves(data, 4 * w);
    ReduceQuads(leaves, w);
    forall i: nat | i < w ensures Quads(leaves, w)[i] == Layer(data)[i] {
      PieceQuad(data, w, i);
    }
    assert Quads(leaves, w) == Layer(data);
  }

  // ----- zero subtrees

  lemma HalfAndDouble(a: nat, b: nat)
    requires b % 2 == 0
    ensures 2 * a * (b / 2) == a * b
  {
    var h := b / 2;
    assert b == 2 * h;
  }

  lemma ZeroPieces(n: nat)
    requires IsPow2(n)
    ensures IsPow2(2 * n)
    ensures Reduce(seq(2 * n, _ => ZERO_PIECE)) ==
            ShaParent(Reduce(seq(n, _ => ZERO_PIECE)), Reduce(seq(n, _ => ZERO_PIECE)))
  {
    DoublePow2(n);
    hide Reduce, ShaParent, IsPow2;
    var twice := seq(2 * n, _ => ZERO_PIECE);
    ReduceUnfold(twice);
    assert twice[..n] == seq(n, _ => ZERO_PIECE) == twice[n..];
  }

  method ZeroSubtree(width: nat) returns (value: Bytes)
    requires IsPow2(width)
    ensures value == Reduce(seq(width, _ => ZERO_PIECE))
  {
    value := ZERO_PIECE;
    var w, built: nat := width, 1;
    assert IsPow2(1);
    hide Reduce, ShaParent, IsPow2;
    ReduceUnfold(seq(1, _ => ZERO_PIECE));
    while w > 1
      invariant w > 0 && IsPow2(w) && IsPow2(built) && built * w == width
      invariant value == Reduce(seq(built, _ => ZERO_PIECE))
      decreases w
    {
      ZeroPieces(built);
      HalfPow2(w);
      HalfAndDouble(built, w);
      value := ShaParent(value, value);
      w, built := w / 2, 2 * built;
    }
    assert w == 1;
  }

  // ----- commitment

  lemma LeavesInjective(a: Bytes, b: Bytes, n: nat)
    requires |a| == |b| && LeafCount(|a|) <= n && Leaves(a, n) == Leaves(b, n)
    ensures a == b
  {
    hide Output;
    hide Slice;
    forall k | 0 <= k < |a| ensures a[k] == b[k] {
      var i := k / LEAF;
      LeafCountAbove(|a|, i);
      assert Leaves(a, n)[i] == Leaf(a, i) && Leaves(b, n)[i] == Leaf(b, i);
      OutputInjective(Sha(Slice(a, i * LEAF, i * LEAF + LEAF)), Sha(Slice(b, i * LEAF, i * LEAF + LEAF)));
      SliceAt(a, i * LEAF, i * LEAF + LEAF, k);
      SliceAt(b, i * LEAF, i * LEAF + LEAF, k);
    }
  }

  lemma SliceAt<T>(data: seq<T>, lo: nat, hi: nat, k: nat)
    requires lo <= k < hi && k < |data|
    ensures k - lo < |Slice(data, lo, hi)| && Slice(data, lo, hi)[k - lo] == data[k]
  {
  }

  lemma PieceHashInjective(a: Bytes, b: Bytes)
    requires |a| == |b| <= GROUP && PieceHash(a) == PieceHash(b)
    ensures a == b
  {
    hide Reduce, Leaf;
    assert IsPow2(4);
    ReduceInjective(Leaves(a, 4), Leaves(b, 4));
    LeavesInjective(a, b, 4);
  }

  lemma ShaRootInjective(a: Bytes, b: Bytes)
    requires |a| == |b| && ShaRoot(a) == ShaRoot(b)
    ensures a == b
  {
    if |a| > 0 {
      hide Reduce, Leaf, TreeWidth;
      var w := TreeWidth(LeafCount(|a|));
      ReduceInjective(Leaves(a, w), Leaves(b, w));
      LeavesInjective(a, b, w);
    }
  }

  // ----- reading the tree back from its root

  /** The nodes `height` levels under a digest, left to right. */
  ghost function NodesUnder(node: Bytes, height: nat): seq<Bytes>
    decreases height
  {
    if height == 0 then [node]
    else if node != [] && node[0].Digest? && node[0].term.Sha? && |node[0].term.data| == 2 * HASH then
      var pair := node[0].term.data;
      NodesUnder(pair[..HASH], height - 1) + NodesUnder(pair[HASH..], height - 1)
    else []
  }

  lemma ParentReadsBack(left: Bytes, right: Bytes, height: nat)
    requires |left| == |right| == HASH
    ensures NodesUnder(ShaParent(left, right), height + 1) == NodesUnder(left, height) + NodesUnder(right, height)
  {
    assert ShaParent(left, right)[0] == Digest(Sha(left + right), 0);
    assert (left + right)[..HASH] == left && (left + right)[HASH..] == right;
  }

  /** A root gives back its layer, node by node and in order. */
  lemma {:induction false} LayerReadsBack(nodes: seq<Bytes>, height: nat)
    requires |nodes| == Pow2(height) && AllHashes(nodes) && IsPow2(|nodes|)
    ensures NodesUnder(Reduce(nodes), height) == nodes
    decreases height
  {
    hide ShaParent, Reduce, NodesUnder;
    ReduceUnfold(nodes);
    if height == 0 {
      Single(nodes[0]);
    } else {
      Pow2Next(height - 1);
      hide Pow2;
      HalfPow2(|nodes|);
      var h := |nodes| / 2;
      ReduceLength(nodes[..h]);
      ReduceLength(nodes[h..]);
      ParentReadsBack(Reduce(nodes[..h]), Reduce(nodes[h..]), height - 1);
      LayerReadsBack(nodes[..h], height - 1);
      LayerReadsBack(nodes[h..], height - 1);
      assert nodes == nodes[..h] + nodes[h..];
    }
  }

  lemma Single(node: Bytes)
    ensures NodesUnder(node, 0) == [node]
  {
  }

  /** The root of an object gives back, in order, the SHA-256 of each 16 KiB of
      it, and zero hashes up to the next power of two. */
  lemma RootReadsBack(data: Bytes) returns (height: nat, leaves: nat)
    ensures data == [] ==> ShaRoot(data) == Output(Sha([]))
    ensures data != [] ==>
              var nodes := NodesUnder(ShaRoot(data), height);
              && 16384 * (leaves - 1) < |data| <= 16384 * leaves
              && |nodes| == Pow2(height) && leaves <= Pow2(height) < 2 * leaves
              && (forall i: nat :: i < leaves ==> nodes[i] == Output(Sha(Slice(data, i * 16384, (i + 1) * 16384))))
              && (forall i: nat :: leaves <= i < |nodes| ==> nodes[i] == seq(32, _ => Octet(0)))
  {
    hide Reduce, NodesUnder, Slice, Pow2, IsPow2, LeafCount;
    height, leaves := 0, LeafCount(|data|);
    assert Zeros(32) == seq(32, _ => Octet(0));
    LeafCountIs(|data|);
    if data != [] {
      height := Exponent(TreeWidth(leaves));
      LayerReadsBack(Leaves(data, TreeWidth(leaves)), height);
    }
  }

  lemma LeafCountIs(length: nat)
    ensures 16384 * (LeafCount(length) - 1) < length <= 16384 * LeafCount(length)
  {
  }
}
