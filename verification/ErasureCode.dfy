/** The systematic Cauchy erasure code: encoding, and decoding by Gauss-Jordan
    elimination from any k of the k + r symbols. */
module ErasureCode {
  import opened Gf256
  import opened LinearSystem

  const MAX_SOURCE := 64
  const MAX_REPAIR := 16
  const MAX_SYMBOL_LENGTH := 65535

  type Symbol = seq<Byte>

  predicate Geometry(k: int, r: int, length: int) {
    1 <= k <= MAX_SOURCE && 0 <= r <= MAX_REPAIR && 1 <= length <= MAX_SYMBOL_LENGTH
  }

  predicate IsSource(source: seq<Symbol>, k: int, length: int) {
    |source| == k && forall j :: 0 <= j < k ==> |source[j]| == length
  }

  // ----- the generator

  /** Distinct integers below 256 are distinct points. */
  lemma PointsDiffer(x: nat, y: nat)
    requires x < 256 && y < 256 && x != y
    ensures OfInt(x) != OfInt(y) && Xor(OfInt(x), OfInt(y)) != ZERO
  {
    hide *;
    assert ToInt(OfInt(x)) != ToInt(OfInt(y));
    XorCancels(OfInt(x), OfInt(y));
  }

  /** One generator entry, 1 / (x + y). */
  function CauchyEntry(t: Tables, x: nat, y: nat): (c: Byte)
    requires Built(t) && x < 256 && y < 256 && x != y
    ensures c == Inv(Xor(OfInt(x), OfInt(y))) && c != ZERO
  {
    hide Inv, Mul, Xor, OfInt;
    PointsDiffer(x, y);
    InvNonzero(Xor(OfInt(x), OfInt(y)));
    GfInv(t, Xor(OfInt(x), OfInt(y))).value
  }

  /** Row of repair symbol `i`, with x = k + i and y_j = j. */
  function CauchyRow(t: Tables, k: nat, i: nat): (row: Row)
    requires Built(t) && k + i < 256
    ensures |row| == k
    ensures forall j :: 0 <= j < k ==> row[j] == Inv(Xor(OfInt(k + i), OfInt(j))) && row[j] != ZERO
  {
    hide Inv, Xor, OfInt, Built;
    seq(k, j requires 0 <= j < k => CauchyEntry(t, k + i, j))
  }

  /** Each entry is the inverse of the two points' exclusive or, as integers. */
  lemma RowEntry(t: Tables, k: nat, i: nat, j: nat)
    requires Built(t) && k + i < 256 && j < k
    ensures IntXor(k + i, j) < 256 && CauchyRow(t, k, i)[j] == Inv(OfInt(IntXor(k + i, j)))
  {
    hide Inv, Xor, OfInt, Built, IntXor;
    PointSum(k + i, j);
  }

  /** With one source symbol the first repair row is the identity. */
  lemma FirstRow(t: Tables)
    requires Built(t)
    ensures CauchyRow(t, 1, 0) == [ONE]
  {
    hide Inv, Xor, OfInt, Built, Mul, ToInt;
    RowEntry(t, 1, 0, 0);
    assert IntXor(1, 0) == 1;
    SmallInts();
    ToIntInjective(OfInt(1), ONE);
    MulInv(ONE);
    MulOne(Inv(ONE));
  }

  /** The first repair symbol of a single source symbol is that symbol. */
  lemma SingleSource(t: Tables, source: seq<Symbol>, symbol: Symbol)
    requires Built(t) && |source| == 1 && IsSource(source, 1, |symbol|)
    ensures Agrees(source, 1, symbol) <==> symbol == source[0]
  {
    hide EncodedByte, Built;
    forall p: nat | p < |symbol| ensures EncodedByte(source, 1, p) == source[0][p] {
      SingleByte(t, source, p);
    }
  }

  lemma SingleByte(t: Tables, source: seq<Symbol>, p: nat)
    requires Built(t) && |source| == 1 && p < |source[0]|
    ensures EncodedByte(source, 1, p) == source[0][p]
  {
    hide Inv, Xor, OfInt, Built, Mul, Dot;
    FirstRow(t);
    var row, column := Coefficients(1, 1), Column(source, p);
    assert row[0] == CauchyRow(t, 1, 0)[0];
    DotOne(row, column);
    MulOne(source[0][p]);
  }

  lemma DotOne(row: Row, column: Row)
    requires |row| == 1 && |column| == 1
    ensures Dot(row, column, 1) == Mul(row[0], column[0])
  {
    hide Xor, Mul;
    assert Dot(row, column, 1) == Xor(Dot(row, column, 0), Mul(row[0], column[0]));
    XorZero(Mul(row[0], column[0]));
  }

  /** Coefficient of source symbol j in encoding symbol `esi`. */
  ghost function Coefficient(k: nat, esi: nat, j: nat): Byte
    requires esi < 256 && j < 256
  {
    if esi < k then (if j == esi then ONE else ZERO) else Inv(Xor(OfInt(esi), OfInt(j)))
  }

  ghost function Coefficients(k: nat, esi: nat): Row
    requires esi < 256 && k <= 256
  {
    seq(k, j requires 0 <= j < k => Coefficient(k, esi, j))
  }

  ghost function Column(source: seq<Symbol>, p: nat): Row
    requires forall j :: 0 <= j < |source| ==> p < |source[j]|
  {
    seq(|source|, j requires 0 <= j < |source| => source[j][p])
  }

  /** Byte p of encoding symbol `esi`: source byte, or the Cauchy combination of column p. */
  ghost function EncodedByte(source: seq<Symbol>, esi: nat, p: nat): Byte
    requires esi < 256 && |source| <= 256
    requires forall j :: 0 <= j < |source| ==> p < |source[j]|
  {
    if esi < |source| then source[esi][p]
    else Dot(Coefficients(|source|, esi), Column(source, p), |source|)
  }

  ghost predicate Agrees(source: seq<Symbol>, esi: nat, symbol: Symbol)
    requires esi < 256 && |source| <= 256 && IsSource(source, |source|, |symbol|)
  {
    forall p :: 0 <= p < |symbol| ==> symbol[p] == EncodedByte(source, esi, p)
  }

  // ----- encoding

  datatype Encoded = Repair(symbols: seq<Symbol>) | Refused

  method Encode(t: Tables, source: seq<Symbol>, repairCount: int) returns (r: Encoded)
    requires Built(t)
    ensures r.Repair? <==>
            && 1 <= |source| <= 64 && 0 <= repairCount <= 16 && 1 <= |source[0]| <= 65535
            && forall j :: 0 <= j < |source| ==> |source[j]| == |source[0]|
    ensures r.Repair? ==> |r.symbols| == repairCount
    ensures r.Repair? ==> forall i :: 0 <= i < repairCount ==>
              |r.symbols[i]| == |source[0]| && Agrees(source, |source| + i, r.symbols[i])
  {
    hide Xor, Mul, Inv, OfInt, Built, Dot;
    if |source| == 0 || !Geometry(|source|, repairCount, |source[0]|) || !IsSource(source, |source|, |source[0]|) {
      return Refused;
    }
    var k, length := |source|, |source[0]|;
    var repair: seq<Symbol> := [];
    for i := 0 to repairCount
      invariant |repair| == i
      invariant forall l :: 0 <= l < i ==> |repair[l]| == length && Agrees(source, k + l, repair[l])
    {
      var symbol := EncodeRow(t, source, i, length);
      repair := repair + [symbol];
    }
    r := Repair(repair);
  }

  method EncodeRow(t: Tables, source: seq<Symbol>, i: nat, length: nat) returns (symbol: Symbol)
    requires Built(t) && |source| + i < 256 && IsSource(source, |source|, length)
    ensures |symbol| == length && Agrees(source, |source| + i, symbol)
  {
    hide Xor, Mul, Inv, OfInt, Built, RowByte, IsSource;
    var k := |source|;
    var row := CauchyRow(t, k, i);
    var out := new Byte[length](_ => ZERO);
    forall p: nat | p < length ensures RowByte(row, source, p, 0) == ZERO { RowNone(row, source, p); }
    for j := 0 to k
      invariant forall p: nat :: p < length ==> out[p] == RowByte(row, source, p, j)
    {
      SymbolLength(source, k, length, j);
      forall p: nat | p < length
        ensures RowByte(row, source, p, j + 1) == Xor(RowByte(row, source, p, j), Mul(row[j], source[j][p]))
      {
        RowMore(row, source, p, j, length);
      }
      if row[j] != ZERO { AddScaled(t, out, row[j], source[j]); }
    }
    symbol := out[..];
    RowAgrees(row, source, i, symbol);
  }

  /** Byte p of the first j source symbols combined by a row. */
  ghost function RowByte(row: Row, source: seq<Symbol>, p: nat, j: nat): Byte
    requires j <= |row| == |source|
  {
    if forall l :: 0 <= l < |source| ==> p < |source[l]| then Dot(row, Column(source, p), j) else ZERO
  }

  lemma RowNone(row: Row, source: seq<Symbol>, p: nat)
    requires |row| == |source|
    ensures RowByte(row, source, p, 0) == ZERO
  {
  }

  lemma RowMore(row: Row, source: seq<Symbol>, p: nat, j: nat, length: nat)
    requires j < |row| == |source| && p < length && IsSource(source, |source|, length)
    ensures p < |source[j]|
    ensures RowByte(row, source, p, j + 1) == Xor(RowByte(row, source, p, j), Mul(row[j], source[j][p]))
  {
    hide Xor, Mul;
  }

  lemma SymbolLength(source: seq<Symbol>, k: nat, length: nat, j: nat)
    requires IsSource(source, k, length) && j < |source|
    ensures |source[j]| == length
  {
  }

  lemma RowAgrees(row: Row, source: seq<Symbol>, i: nat, symbol: Symbol)
    requires |source| + i < 256 && row == Coefficients(|source|, |source| + i)
    requires IsSource(source, |source|, |symbol|)
    requires forall p: nat :: p < |symbol| ==> symbol[p] == RowByte(row, source, p, |source|)
    ensures Agrees(source, |source| + i, symbol)
  {
    hide Dot, Coefficients;
  }

  /** Adds a multiple of one symbol into the output, in place. */
  method AddScaled(t: Tables, out: array<Byte>, factor: Byte, symbol: Symbol)
    requires Built(t) && |symbol| == out.Length
    modifies out
    ensures forall p :: 0 <= p < out.Length ==> out[p] == Xor(old(out[p]), Mul(factor, symbol[p]))
  {
    hide Xor, Mul, Built;
    for pos := 0 to out.Length
      invariant forall p :: 0 <= p < pos ==> out[p] == Xor(old(out[p]), Mul(factor, symbol[p]))
      invariant forall p :: pos <= p < out.Length ==> out[p] == old(out[p])
    {
      out[pos] := Xor(out[pos], GfMul(t, factor, symbol[pos]));
    }
  }

  // ----- choosing rows

  ghost predicate Ascending(s: seq<nat>) {
    forall i, j :: 0 <= i < j < |s| ==> s[i] < s[j]
  }

  /** The identifiers in [lo, hi) that are keys, or that are not, ascending. */
  function Select(keys: set<int>, lo: nat, hi: nat, held: bool): (s: seq<nat>)
    requires lo <= hi
    ensures forall i :: 0 <= i < |s| ==> lo <= s[i] < hi && (s[i] in keys <==> held)
    ensures Ascending(s)
    decreases hi
  {
    if lo == hi then [] else
      Select(keys, lo, hi - 1, held) + (if (hi - 1 in keys) == held then [hi - 1] else [])
  }

  lemma {:induction false} SelectComplete(keys: set<int>, lo: nat, hi: nat, held: bool, e: nat)
    requires lo <= e < hi && (e in keys <==> held)
    ensures e in Select(keys, lo, hi, held)
    decreases hi
  {
    if e < hi - 1 {
      SelectComplete(keys, lo, hi - 1, held, e);
    }
  }

  lemma {:induction false} SelectCount(keys: set<int>, n: nat)
    ensures |Select(keys, 0, n, true)| + |Select(keys, 0, n, false)| == n
  {
    if n > 0 { SelectCount(keys, n - 1); }
  }

  lemma {:induction false} SetOfSeq(s: seq<int>, elements: set<int>)
    requires forall e :: e in elements ==> e in s
    ensures |elements| <= |s|
  {
    if |s| == 0 {
      assert forall e :: e in elements ==> false;
    } else {
      SetOfSeq(s[1..], elements - {s[0]});
    }
  }

  ghost predicate InRange(received: map<int, Symbol>, k: nat, r: nat) {
    forall e :: e in received ==> 0 <= e < k + r
  }

  lemma LowestFirst(s: seq<nat>, n: nat, e: nat, i: nat)
    requires Ascending(s) && n <= |s| && e in s && e !in s[..n] && i < n
    ensures s[i] < e
  {
    var l :| 0 <= l < |s| && s[l] == e;
    assert forall m :: 0 <= m < n ==> s[..n][m] == s[m];
  }

  lemma EnoughRepairs(received: map<int, Symbol>, k: nat, r: nat)
    requires |received| >= k && InRange(received, k, r)
    ensures |Select(received.Keys, 0, k, true)| <= k
    ensures k - |Select(received.Keys, 0, k, true)| <= |Select(received.Keys, k, k + r, true)|
  {
    hide Select;
    var sources, repairs := Select(received.Keys, 0, k, true), Select(received.Keys, k, k + r, true);
    SelectCount(received.Keys, k);
    forall e | e in received.Keys ensures e in sources + repairs {
      if e < k { SelectComplete(received.Keys, 0, k, true, e); }
      else { SelectComplete(received.Keys, k, k + r, true, e); }
    }
    SetOfSeq(sources + repairs, received.Keys);
  }

  /** Every received source symbol, then the lowest repair symbols, k in all. */
  function ChosenRepairs(received: map<int, Symbol>, k: nat, r: nat): (s: seq<nat>)
    requires |received| >= k && InRange(received, k, r)
    ensures |Select(received.Keys, 0, k, true)| + |s| == k
    ensures Ascending(s) && forall i :: 0 <= i < |s| ==> k <= s[i] < k + r && s[i] in received
  {
    EnoughRepairs(received, k, r);
    var need := k - |Select(received.Keys, 0, k, true)|;
    Select(received.Keys, k, k + r, true)[..need]
  }

  function Chosen(received: map<int, Symbol>, k: nat, r: nat): (chosen: seq<nat>)
    requires |received| >= k && InRange(received, k, r)
    ensures |chosen| == k
    ensures forall i :: 0 <= i < k ==> chosen[i] in received && chosen[i] < k + r
  {
    Select(received.Keys, 0, k, true) + ChosenRepairs(received, k, r)
  }

  /** No received source symbol is passed over, and no received repair symbol
      below a chosen one. */
  lemma ChosenFirst(received: map<int, Symbol>, k: nat, r: nat, e: int)
    requires |received| >= k && InRange(received, k, r) && e in received && e !in Chosen(received, k, r)
    ensures e >= k && forall i :: 0 <= i < k ==> Chosen(received, k, r)[i] < e
  {
    hide Select;
    var repairs := Select(received.Keys, k, k + r, true);
    if e < k { SelectComplete(received.Keys, 0, k, true, e); }
    SelectComplete(received.Keys, k, k + r, true, e);
    forall i | 0 <= i < |ChosenRepairs(received, k, r)| ensures ChosenRepairs(received, k, r)[i] < e {
      LowestFirst(repairs, |ChosenRepairs(received, k, r)|, e, i);
    }
  }

  // ----- any k rows of the stacked generator are independent

  ghost function Points(s: seq<nat>): Row
    requires forall i :: 0 <= i < |s| ==> s[i] < 256
  {
    seq(|s|, i requires 0 <= i < |s| => OfInt(s[i]))
  }

  lemma PointsDistinct(s: seq<nat>)
    requires Ascending(s) && forall i :: 0 <= i < |s| ==> s[i] < 256
    ensures Distinct(Points(s))
  {
    hide Xor, OfInt;
    forall i, j | 0 <= i < j < |s| ensures Points(s)[i] != Points(s)[j] {
      PointsDiffer(s[i], s[j]);
    }
  }

  /** The coordinates of z at the given indices. */
  ghost function Pick(z: Row, ys: seq<nat>): Row
    requires forall i :: 0 <= i < |ys| ==> ys[i] < |z|
  {
    seq(|ys|, i requires 0 <= i < |ys| => z[ys[i]])
  }

  lemma {:induction false} CauchySumPrefix(x: Byte, ys: Row, vs: Row, y: Byte, v: Byte, n: nat)
    requires n <= |ys| && n <= |vs|
    ensures CauchySum(x, ys, vs, n) == CauchySum(x, ys + [y], vs + [v], n)
  {
    hide Xor, Mul, Inv;
    if n > 0 { CauchySumPrefix(x, ys, vs, y, v, n - 1); }
  }

  lemma CauchySumAppend(x: Byte, ys: Row, vs: Row, y: Byte, v: Byte)
    requires |ys| == |vs|
    ensures CauchySum(x, ys + [y], vs + [v], |ys| + 1) ==
            Xor(CauchySum(x, ys, vs, |ys|), Mul(v, Inv(Xor(x, y))))
  {
    hide Xor, Mul, Inv;
    CauchySumPrefix(x, ys, vs, y, v, |ys|);
  }

  lemma SelectStep(keys: set<int>, n: nat)
    requires n > 0
    ensures Select(keys, 0, n, false) ==
            if n - 1 in keys then Select(keys, 0, n - 1, false) else Select(keys, 0, n - 1, false) + [n - 1]
  {
  }

  lemma RepairRowStep(row: Row, z: Row, n: nat)
    requires 0 < n <= |row| && n <= |z|
    ensures Dot(row, z, n) == Xor(Dot(row, z, n - 1), Mul(z[n - 1], row[n - 1]))
    ensures z[n - 1] == ZERO ==> Dot(row, z, n) == Dot(row, z, n - 1)
  {
    hide Xor, Mul;
    MulCommutes(row[n - 1], z[n - 1]);
    MulZero(row[n - 1]);
    XorZero(Dot(row, z, n - 1));
  }

  lemma RepairCoefficient(k: nat, esi: nat, j: nat)
    requires j < k <= esi < 256
    ensures Coefficient(k, esi, j) == Inv(Xor(OfInt(esi), OfInt(j)))
  {
  }

  /** The Cauchy sum at point `esi` over the indices below n that were lost. */
  ghost function LostSum(keys: set<int>, esi: nat, z: Row, n: nat): Byte
    requires n <= 256 && n <= |z| && esi < 256
  {
    var ys := Select(keys, 0, n, false);
    CauchySum(OfInt(esi), Points(ys), Pick(z, ys), |ys|)
  }

  lemma LostSumStep(keys: set<int>, esi: nat, z: Row, n: nat)
    requires 0 < n <= 256 && n <= |z| && esi < 256
    ensures LostSum(keys, esi, z, n) ==
            if n - 1 in keys then LostSum(keys, esi, z, n - 1)
            else Xor(LostSum(keys, esi, z, n - 1), Mul(z[n - 1], Inv(Xor(OfInt(esi), OfInt(n - 1)))))
  {
    hide Xor, Mul, Inv, OfInt, Select, CauchySum;
    SelectStep(keys, n);
    if n - 1 !in keys {
      var ys := Select(keys, 0, n - 1, false);
      CauchySumAppend(OfInt(esi), Points(ys), Pick(z, ys), OfInt(n - 1), z[n - 1]);
      assert Points(ys + [n - 1]) == Points(ys) + [OfInt(n - 1)];
      assert Pick(z, ys + [n - 1]) == Pick(z, ys) + [z[n - 1]];
    }
  }

  lemma EmptySums(keys: set<int>, esi: nat, row: Row, z: Row)
    requires esi < 256
    ensures LostSum(keys, esi, z, 0) == Dot(row, z, 0) == ZERO
  {
    hide Xor, Mul, Inv, OfInt;
  }

  /** A repair row against a vector that is zero at every held source index
      is the Cauchy sum over the lost indices. */
  lemma {:induction false} RepairRowSum(keys: set<int>, k: nat, esi: nat, row: Row, z: Row, n: nat)
    requires n <= k <= esi < 256 && n <= |row| && n <= |z|
    requires forall j :: 0 <= j < n ==> row[j] == Coefficient(k, esi, j)
    requires forall j :: 0 <= j < n && j in keys ==> z[j] == ZERO
    ensures Dot(row, z, n) == LostSum(keys, esi, z, n)
  {
    hide Xor, Mul, Inv, OfInt, Coefficient, LostSum, Dot;
    if n == 0 {
      EmptySums(keys, esi, row, z);
    } else {
      RepairRowSum(keys, k, esi, row, z, n - 1);
      RepairRowStep(row, z, n);
      LostSumStep(keys, esi, z, n);
      RepairCoefficient(k, esi, n - 1);
    }
  }

  /** The stacked rows [I; G] at any k identifiers annihilate only the zero vector. */
  lemma ChosenRowsIndependent(keys: set<int>, repairs: seq<nat>, k: nat, z: Row)
    requires k <= |z| && k <= 256 && |Select(keys, 0, k, true)| + |repairs| == k
    requires Ascending(repairs) && forall i :: 0 <= i < |repairs| ==> k <= repairs[i] < 256
    requires forall e :: e in Select(keys, 0, k, true) + repairs ==> Dot(Coefficients(k, e), z, k) == ZERO
    ensures forall j :: 0 <= j < k ==> z[j] == ZERO
  {
    hide Xor, Mul, Inv, OfInt, Dot, CauchySum, Select;
    forall e: nat | e in keys && e < k ensures z[e] == ZERO {
      SelectComplete(keys, 0, k, true, e);
      DotSingle(Coefficients(k, e), z, e, k);
      MulOne(z[e]);
    }
    var ys := Select(keys, 0, k, false);
    SelectCount(keys, k);
    var xs, points, vs := Points(repairs), Points(ys), Pick(z, ys);
    forall i | 0 <= i < |repairs| ensures CauchySum(xs[i], points, vs, |ys|) == ZERO {
      assert repairs[i] in repairs;
      RepairRowSum(keys, k, repairs[i], Coefficients(k, repairs[i]), z, k);
    }
    PointsDistinct(repairs);
    PointsDistinct(ys);
    forall i, j | 0 <= i < |xs| && 0 <= j < |points| ensures xs[i] != points[j] {
      PointsDiffer(repairs[i], ys[j]);
    }
    CauchySystem(xs, points, vs, |ys|);
    forall j: nat | j < k && j !in keys ensures z[j] == ZERO {
      SelectComplete(keys, 0, k, false, j);
      var i :| 0 <= i < |ys| && ys[i] == j;
      assert vs[i] == z[j];
    }
  }
}
