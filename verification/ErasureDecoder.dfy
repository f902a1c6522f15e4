/** Decoding: the chosen rows, augmented with the received bytes, reduced in
    place by Gauss-Jordan elimination. */
module ErasureDecoder {
  import opened Gf256
  import opened LinearSystem
  import opened ErasureCode

  datatype Decoded =
    | Source(symbols: seq<Symbol>)
    | InsufficientSymbols
    | InvalidSymbol
    | InvalidGeometry

  // ----- the elimination invariant

  /** Columns below `col` are those of the identity. */
  ghost predicate Reduced(rows: seq<Row>, col: nat) {
    forall r, j :: 0 <= r < |rows| && 0 <= j < col && j < |rows[r]| ==>
      rows[r][j] == (if r == j then ONE else ZERO)
  }

  /** The only kernel vector with a zero right-hand part is zero on the unknowns. */
  ghost predicate Independent(rows: seq<Row>, k: nat, n: nat) {
    forall z: Row :: |z| == n && InKernel(rows, z) && (forall j :: k <= j < n ==> z[j] == ZERO) ==>
      forall j :: 0 <= j < k && j < n ==> z[j] == ZERO
  }

  /** A kernel vector of a system that has no pivot left in column `col`. */
  ghost function Witness(rows: seq<Row>, col: nat, n: nat): Row
    requires col < |rows| && col < n && Shape(rows, n)
  {
    seq(n, j requires 0 <= j < n => if j < col then rows[j][col] else if j == col then ONE else ZERO)
  }

  lemma WitnessInKernel(rows: seq<Row>, col: nat, n: nat)
    requires col < |rows| <= n && Shape(rows, n) && Reduced(rows, col)
    requires forall r :: col <= r < |rows| ==> rows[r][col] == ZERO
    ensures InKernel(rows, Witness(rows, col, n))
  {
    hide Xor, Mul, Dot;
    var z := Witness(rows, col, n);
    forall r | 0 <= r < |rows| ensures |rows[r]| == |z| && Dot(rows[r], z, |z|) == ZERO {
      if r < col {
        DotPair(rows[r], z, r, col, n);
        MulOne(z[r]);
        MulCommutes(rows[r][col], ONE); MulOne(rows[r][col]);
        XorZero(z[r]);
      } else {
        DotVanishes(rows[r], z, 0, n);
        EmptyDot(rows[r], z);
      }
    }
  }

  lemma EmptyDot(a: Row, z: Row)
    ensures Dot(a, z, 0) == ZERO
  {
  }

  /** Elimination never runs out of pivots on an independent system. */
  lemma PivotExists(rows: seq<Row>, rows0: seq<Row>, col: nat, n: nat)
    requires col < |rows| <= n && Shape(rows, n) && Reduced(rows, col)
    requires SameKernel(rows, rows0, n) && Independent(rows0, |rows|, n)
    ensures exists r :: col <= r < |rows| && rows[r][col] != ZERO
  {
    if forall r :: col <= r < |rows| ==> rows[r][col] == ZERO {
      WitnessInKernel(rows, col, n);
      var z := Witness(rows, col, n);
      assert z[col] == ONE;
      OneNotZero();
    }
  }

  // ----- one column

  function Scaled(t: Tables, c: Byte, row: Row): (r: Row)
    requires Built(t)
    ensures |r| == |row| && forall j :: 0 <= j < |row| ==> r[j] == Mul(c, row[j])
  {
    hide Mul, Built;
    seq(|row|, j requires 0 <= j < |row| => GfMul(t, c, row[j]))
  }

  function Subtracted(t: Tables, a: Row, f: Byte, b: Row): (r: Row)
    requires Built(t) && |a| == |b|
    ensures |r| == |a| && forall j :: 0 <= j < |a| ==> r[j] == Xor(a[j], Mul(f, b[j]))
  {
    hide Mul, Xor, Built;
    seq(|a|, j requires 0 <= j < |a| => Xor(a[j], GfMul(t, f, b[j])))
  }

  /** Brings a nonzero entry to row `col` and scales it to one. */
  method Pivot(t: Tables, rows: seq<Row>, ghost rows0: seq<Row>, col: nat, n: nat) returns (r: seq<Row>)
    requires Built(t) && col < |rows| <= n && Shape(rows, n) && Reduced(rows, col)
    requires SameKernel(rows, rows0, n) && Independent(rows0, |rows|, n)
    ensures |r| == |rows| && Shape(r, n) && Reduced(r, col) && r[col][col] == ONE
    ensures SameKernel(r, rows0, n)
  {
    hide Mul, Xor, Dot, Inv, Built, SameKernel, Independent;
    PivotExists(rows, rows0, col, n);
    var pivot := FindPivot(rows, col, n);
    r := rows[col := rows[pivot]][pivot := rows[col]];
    SwapKeepsKernel(rows, col, pivot, n);
    ghost var swapped := r;
    assert swapped[col] == rows[pivot];
    var inv := GfInv(t, r[col][col]).value;
    var scaled := Scaled(t, inv, r[col]);
    InvNonzero(r[col][col]);
    ScaleKeepsKernel(r, col, inv, scaled, n);
    r := r[col := scaled];
    MulInv(swapped[col][col]);
    forall j | 0 <= j < col ensures scaled[j] == ZERO {
      MulZero(inv);
    }
    KernelChain(rows, swapped, r, rows0, n);
  }

  /** The first row from `col` down with a nonzero entry in that column. */
  method FindPivot(rows: seq<Row>, col: nat, n: nat) returns (pivot: nat)
    requires col < |rows| <= n && Shape(rows, n)
    requires exists r :: col <= r < |rows| && rows[r][col] != ZERO
    ensures col <= pivot < |rows| && rows[pivot][col] != ZERO
    ensures forall r :: col <= r < pivot ==> rows[r][col] == ZERO
  {
    pivot := col;
    while rows[pivot][col] == ZERO
      invariant col <= pivot < |rows|
      invariant forall r :: col <= r < pivot ==> rows[r][col] == ZERO
      decreases |rows| - pivot
    {
      pivot := pivot + 1;
    }
  }

  lemma KernelChain(a: seq<Row>, b: seq<Row>, c: seq<Row>, d: seq<Row>, n: nat)
    requires SameKernel(a, b, n) && SameKernel(b, c, n) && SameKernel(a, d, n)
    ensures SameKernel(c, d, n)
  {
    hide InKernel;
  }

  /** Clears column `col` from every row but row `col`. */
  method Clear(t: Tables, rows: seq<Row>, ghost rows0: seq<Row>, col: nat, n: nat) returns (r: seq<Row>)
    requires Built(t) && col < |rows| <= n && Shape(rows, n) && Reduced(rows, col) && rows[col][col] == ONE
    requires SameKernel(rows, rows0, n)
    ensures |r| == |rows| && Shape(r, n) && Reduced(r, col + 1) && SameKernel(r, rows0, n)
  {
    hide Mul, Xor, Dot, Built, SameKernel, Reduced;
    r := rows;
    for i := 0 to |rows|
      invariant |r| == |rows| && Shape(r, n) && Reduced(r, col) && r[col] == rows[col]
      invariant forall l :: 0 <= l < i && l != col ==> r[l][col] == ZERO
      invariant SameKernel(r, rows0, n)
    {
      if i != col && r[i][col] != ZERO { r := ClearRow(t, r, rows0, i, col, n); }
    }
    OneMore(r, col, n);
  }

  /** Clears column `col` from row i with a multiple of row `col`. */
  method ClearRow(t: Tables, rows: seq<Row>, ghost rows0: seq<Row>, i: nat, col: nat, n: nat) returns (r: seq<Row>)
    requires Built(t) && col < |rows| <= n && Shape(rows, n) && Reduced(rows, col) && rows[col][col] == ONE
    requires i < |rows| && i != col && SameKernel(rows, rows0, n)
    ensures |r| == |rows| && Shape(r, n) && Reduced(r, col) && SameKernel(r, rows0, n)
    ensures r[i][col] == ZERO && forall l :: 0 <= l < |rows| && l != i ==> r[l] == rows[l]
  {
    hide Mul, Xor, Dot, Built, SameKernel;
    var f := rows[i][col];
    var reduced := Subtracted(t, rows[i], f, rows[col]);
    SubtractKeepsKernel(rows, i, col, f, reduced, n);
    MulCommutes(f, ONE); MulOne(f); XorZero(f);
    forall j | 0 <= j < col ensures reduced[j] == rows[i][j] {
      MulZero(f); XorZero(rows[i][j]);
    }
    r := rows[i := reduced];
    SameKernelSelf(rows, n);
    KernelChain(rows, rows, r, rows0, n);
  }

  lemma OneMore(rows: seq<Row>, col: nat, n: nat)
    requires col < |rows| <= n && Shape(rows, n) && Reduced(rows, col) && rows[col][col] == ONE
    requires forall l :: 0 <= l < |rows| && l != col ==> rows[l][col] == ZERO
    ensures Reduced(rows, col + 1)
  {
  }

  lemma SameKernelSelf(a: seq<Row>, n: nat)
    ensures SameKernel(a, a, n)
  {
  }

  /** Gauss-Jordan elimination: the identity on the unknowns, same solutions. */
  method Eliminate(t: Tables, rows0: seq<Row>, n: nat) returns (rows: seq<Row>)
    requires Built(t) && |rows0| <= n && Shape(rows0, n) && Independent(rows0, |rows0|, n)
    ensures |rows| == |rows0| && Shape(rows, n) && Reduced(rows, |rows|) && SameKernel(rows, rows0, n)
  {
    hide Built, SameKernel, Independent;
    rows := rows0;
    SameKernelSelf(rows0, n);
    for col := 0 to |rows0|
      invariant |rows| == |rows0| && Shape(rows, n) && Reduced(rows, col) && SameKernel(rows, rows0, n)
    {
      rows := Pivot(t, rows, rows0, col, n);
      rows := Clear(t, rows, rows0, col, n);
    }
  }

  // ----- what the augmented rows say

  /** x followed by the p-th unit vector of length `length`. */
  ghost function Extended(x: Row, p: nat, length: nat): Row
    requires p < length
  {
    x + seq(length, j requires 0 <= j < length => if j == p then ONE else ZERO)
  }

  lemma {:induction false} DotPrefix(a: Row, b: Row, x: Row, y: Row, n: nat)
    requires n <= |a| && n <= |x|
    ensures Dot(a + b, x + y, n) == Dot(a, x, n)
  {
    hide Xor, Mul;
    if n > 0 { DotPrefix(a, b, x, y, n - 1); }
  }

  lemma DotStep(a: Row, z: Row, n: nat)
    requires n < |a| && n < |z|
    ensures Dot(a, z, n + 1) == Xor(Dot(a, z, n), Mul(a[n], z[n]))
  {
  }

  /** An augmented row against an extended vector: left side plus right side. */
  lemma AugmentedDot(a: Row, b: Row, x: Row, p: nat)
    requires |a| == |x| && p < |b|
    ensures Dot(a + b, Extended(x, p, |b|), |a| + |b|) == Xor(Dot(a, x, |a|), b[p])
  {
    hide Xor, Mul, Dot;
    var z := Extended(x, p, |b|);
    var k := |a|;
    DotPrefix(a, b, x, z[k..], k);
    assert x + z[k..] == z;
    DotVanishes(a + b, z, k, k + p);
    DotStep(a + b, z, k + p);
    DotVanishes(a + b, z, k + p + 1, k + |b|);
    MulCommutes(b[p], ONE); MulOne(b[p]);
  }

  lemma EncodedDot(source: seq<Symbol>, esi: nat, p: nat)
    requires esi < 256 && |source| <= 256
    requires forall j :: 0 <= j < |source| ==> p < |source[j]|
    ensures Dot(Coefficients(|source|, esi), Column(source, p), |source|) == EncodedByte(source, esi, p)
  {
    hide Xor, Mul, Dot, Inv, OfInt;
    if esi < |source| {
      DotSingle(Coefficients(|source|, esi), Column(source, p), esi, |source|);
      MulOne(source[esi][p]);
    }
  }

  ghost predicate IsAugmented(rows: seq<Row>, received: map<int, Symbol>, chosen: seq<nat>, k: nat) {
    |rows| == |chosen| && k <= 256 &&
    forall i :: 0 <= i < |chosen| ==>
      chosen[i] < 256 && chosen[i] in received && rows[i] == Coefficients(k, chosen[i]) + received[chosen[i]]
  }

  /** The source agrees with every chosen symbol. */
  ghost predicate Explains(source: seq<Symbol>, received: map<int, Symbol>, chosen: seq<nat>, length: nat)
    requires |source| <= 256 && IsSource(source, |source|, length)
  {
    forall i :: 0 <= i < |chosen| ==>
      && chosen[i] < 256 && chosen[i] in received && |received[chosen[i]]| == length
      && Agrees(source, chosen[i], received[chosen[i]])
  }

  lemma RowSolved(source: seq<Symbol>, esi: nat, symbol: Symbol, p: nat)
    requires esi < 256 && |source| <= 256 && IsSource(source, |source|, |symbol|) && p < |symbol|
    ensures |Coefficients(|source|, esi)| == |source|
    ensures Dot(Coefficients(|source|, esi) + symbol, Extended(Column(source, p), p, |symbol|), |source| + |symbol|) == ZERO
            <==> symbol[p] == EncodedByte(source, esi, p)
  {
    hide Dot, Xor;
    AugmentedDot(Coefficients(|source|, esi), symbol, Column(source, p), p);
    EncodedDot(source, esi, p);
    hide EncodedByte;
    XorCancels(EncodedByte(source, esi, p), symbol[p]);
  }

  /** Explaining the chosen symbols is solving the augmented system at every byte position. */
  lemma ExplainsIsSolving(source: seq<Symbol>, rows: seq<Row>, received: map<int, Symbol>, chosen: seq<nat>, length: nat)
    requires IsAugmented(rows, received, chosen, |source|) && IsSource(source, |source|, length)
    requires forall i :: 0 <= i < |chosen| ==> |received[chosen[i]]| == length
    ensures Explains(source, received, chosen, length) <==>
            forall p :: 0 <= p < length ==> InKernel(rows, Extended(Column(source, p), p, length))
  {
    hide Dot, EncodedByte, Coefficients, Column, Extended;
    var k := |source|;
    forall i, p | 0 <= i < |chosen| && 0 <= p < length
      ensures |Column(source, p)| == k && |Extended(Column(source, p), p, length)| == k + length == |rows[i]|
      ensures (Dot(rows[i], Extended(Column(source, p), p, length), k + length) == ZERO) ==
              (received[chosen[i]][p] == EncodedByte(source, chosen[i], p))
    {
      Lengths(source, p, length);
      RowSolved(source, chosen[i], received[chosen[i]], p);
    }
    forall p | 0 <= p < length ensures |Extended(Column(source, p), p, length)| == k + length {
      Lengths(source, p, length);
    }
    if Explains(source, received, chosen, length) {
      forall p | 0 <= p < length ensures InKernel(rows, Extended(Column(source, p), p, length)) {
        forall i | 0 <= i < |rows| ensures Dot(rows[i], Extended(Column(source, p), p, length), k + length) == ZERO {
          assert Agrees(source, chosen[i], received[chosen[i]]);
        }
      }
    }
    if forall p :: 0 <= p < length ==> InKernel(rows, Extended(Column(source, p), p, length)) {
      forall i, p | 0 <= i < |chosen| && 0 <= p < length
        ensures received[chosen[i]][p] == EncodedByte(source, chosen[i], p)
      {
        assert InKernel(rows, Extended(Column(source, p), p, length));
      }
    }
  }

  lemma Lengths(source: seq<Symbol>, p: nat, length: nat)
    requires p < length && IsSource(source, |source|, length)
    ensures |Column(source, p)| == |source|
    ensures |Extended(Column(source, p), p, length)| == |source| + length
  {
  }

  /** A reduced system is solved by its right-hand column, and by nothing else. */
  lemma ReducedSolution(rows: seq<Row>, x: Row, p: nat, length: nat)
    requires p < length && |x| == |rows| && Shape(rows, |rows| + length) && Reduced(rows, |rows|)
    ensures InKernel(rows, Extended(x, p, length)) <==>
            forall i :: 0 <= i < |rows| ==> x[i] == rows[i][|rows| + p]
  {
    hide Dot, Xor, Mul;
    var k := |rows|;
    var z := Extended(x, p, length);
    forall i | 0 <= i < k
      ensures Dot(rows[i], z, k + length) == ZERO <==> x[i] == rows[i][k + p]
    {
      DotPair(rows[i], z, i, k + p, k + length);
      MulOne(x[i]);
      MulCommutes(rows[i][k + p], ONE); MulOne(rows[i][k + p]);
      XorCancels(x[i], rows[i][k + p]);
    }
  }

  // ----- decoding

  lemma AugmentedIndependent(rows: seq<Row>, received: map<int, Symbol>, k: nat, r: nat, length: nat)
    requires |received| >= k && k + r <= 256 && InRange(received, k, r)
    requires forall e :: e in received ==> |received[e]| == length
    requires IsAugmented(rows, received, Chosen(received, k, r), k)
    ensures Shape(rows, k + length) && Independent(rows, k, k + length)
  {
    hide Dot, Coefficients, Select;
    var chosen, n := Chosen(received, k, r), k + length;
    forall i | 0 <= i < k ensures |rows[i]| == n {
      CoefficientsLength(k, chosen[i]);
    }
    forall z: Row | |z| == n && InKernel(rows, z) && (forall j :: k <= j < n ==> z[j] == ZERO)
      ensures forall j :: 0 <= j < k ==> z[j] == ZERO
    {
      forall e | e in chosen ensures Dot(Coefficients(k, e), z, k) == ZERO {
        var i :| 0 <= i < k && chosen[i] == e;
        CoefficientsLength(k, e);
        DotVanishes(rows[i], z, k, n);
        DotPrefix(Coefficients(k, e), received[e], z[..k], z[k..], k);
        DotPrefix(Coefficients(k, e), [], z[..k], z[k..], k);
        assert z[..k] + z[k..] == z && Coefficients(k, e) + [] == Coefficients(k, e);
      }
      ChosenRowsIndependent(received.Keys, ChosenRepairs(received, k, r), k, z);
    }
  }

  lemma CoefficientsLength(k: nat, esi: nat)
    requires esi < 256 && k <= 256
    ensures |Coefficients(k, esi)| == k
  {
  }

  method BuildRows(t: Tables, received: map<int, Symbol>, chosen: seq<nat>, k: nat) returns (rows: seq<Row>)
    requires Built(t) && k <= 256
    requires forall i :: 0 <= i < |chosen| ==> chosen[i] < 256 && chosen[i] in received
    ensures IsAugmented(rows, received, chosen, k)
  {
    hide Built, Inv, Xor, OfInt;
    rows := [];
    for i := 0 to |chosen|
      invariant IsAugmented(rows, received, chosen[..i], k)
    {
      var esi := chosen[i];
      var row: Row;
      if esi < k {
        row := seq(k, j requires 0 <= j < k => if j == esi then ONE else ZERO);
      } else {
        row := CauchyRow(t, k, esi - k);
      }
      assert row == Coefficients(k, esi);
      rows := rows + [row + received[esi]];
      assert chosen[..i + 1] == chosen[..i] + [esi];
    }
    assert chosen[..|chosen|] == chosen;
  }

  ghost predicate WellFormed(received: map<int, Symbol>, k: nat, r: nat, length: nat) {
    InRange(received, k, r) && forall e :: e in received ==> |received[e]| == length
  }

  /** The symbols the reduced rows spell: row i past column k. */
  function RightHand(rows: seq<Row>, k: nat): seq<Symbol>
    requires forall i :: 0 <= i < |rows| ==> k <= |rows[i]|
  {
    seq(|rows|, i requires 0 <= i < |rows| => rows[i][k..])
  }

  /** The right-hand side of the reduced system is the one source that explains the chosen symbols. */
  lemma UniqueSource(rows: seq<Row>, rows0: seq<Row>, received: map<int, Symbol>, chosen: seq<nat>,
                     k: nat, length: nat, source: seq<Symbol>)
    requires IsAugmented(rows0, received, chosen, k) && |chosen| == k == |rows|
    requires forall i :: 0 <= i < k ==> |received[chosen[i]]| == length
    requires Shape(rows, k + length) && Reduced(rows, k) && SameKernel(rows, rows0, k + length)
    requires IsSource(source, k, length)
    ensures Explains(source, received, chosen, length) <==> source == RightHand(rows, k)
  {
    hide Dot, EncodedByte, Coefficients, InKernel, Agrees, Reduced;
    ExplainsIsSolving(source, rows0, received, chosen, length);
    forall p | 0 <= p < length
      ensures InKernel(rows0, Extended(Column(source, p), p, length)) ==
              (forall i :: 0 <= i < k ==> source[i][p] == rows[i][k + p])
    {
      ReducedSolution(rows, Column(source, p), p, length);
      assert InKernel(rows0, Extended(Column(source, p), p, length)) <==>
             InKernel(rows, Extended(Column(source, p), p, length));
      assert forall i :: 0 <= i < k ==> Column(source, p)[i] == source[i][p];
    }
    hide Explains;
    if Explains(source, received, chosen, length) {
      forall i | 0 <= i < k ensures source[i] == RightHand(rows, k)[i] {
        forall p | 0 <= p < length ensures source[i][p] == rows[i][k..][p] {
          assert InKernel(rows0, Extended(Column(source, p), p, length));
        }
      }
    }
    if source == RightHand(rows, k) {
      forall p, i | 0 <= p < length && 0 <= i < k ensures source[i][p] == rows[i][k + p] {
        assert source[i] == rows[i][k..];
      }
    }
  }

  /** Reconstructs every source symbol from any `k` received symbols. */
  method Decode(t: Tables, k: int, r: int, length: int, received: map<int, Symbol>) returns (d: Decoded)
    requires Built(t)
    ensures d.InvalidGeometry? <==> !(1 <= k <= 64 && 0 <= r <= 16 && 1 <= length <= 65535)
    ensures Geometry(k, r, length) ==>
              (d.InvalidSymbol? <==> exists e :: e in received && (e < 0 || e >= k + r || |received[e]| != length))
    ensures Geometry(k, r, length) && WellFormed(received, k, r, length) ==>
              (d.InsufficientSymbols? <==> |received| < k)
    ensures d.Source? ==>
              && IsSource(d.symbols, k, length)
              && Explains(d.symbols, received, Chosen(received, k, r), length)
    ensures d.Source? ==> forall s: seq<Symbol> ::
              IsSource(s, k, length) && Explains(s, received, Chosen(received, k, r), length) ==> s == d.symbols
    ensures Geometry(k, r, length) && WellFormed(received, k, r, length) && |received| >= k ==>
              forall s: seq<Symbol> ::
                IsSource(s, k, length) && (forall e :: e in received ==> Agrees(s, e, received[e])) ==> d == Source(s)
  {
    hide Built, Coefficients, InKernel, Reduced, SameKernel, Independent, Select;
    if !Geometry(k, r, length) {
      return InvalidGeometry;
    }
    if exists e :: e in received && (!(0 <= e < k + r) || |received[e]| != length) {
      return InvalidSymbol;
    }
    if |received| < k {
      return InsufficientSymbols;
    }
    var chosen := Chosen(received, k, r);
    var rows0 := BuildRows(t, received, chosen, k);
    AugmentedIndependent(rows0, received, k, r, length);
    var rows := Eliminate(t, rows0, k + length);
    d := Source(RightHand(rows, k));
    forall s: seq<Symbol> | IsSource(s, k, length)
      ensures Explains(s, received, chosen, length) <==> s == d.symbols
    {
      UniqueSource(rows, rows0, received, chosen, k, length, s);
    }
    hide Agrees;
  }
}
