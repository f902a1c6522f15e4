/** Linear systems over GF(2^8): what a row operation keeps, and why a Cauchy
    system has only the zero solution. */
module LinearSystem {
  import opened Gf256

  type Row = seq<Byte>

  /** The sum of a[j] * z[j] over j < n. */
  function Dot(a: Row, z: Row, n: nat): Byte
    requires n <= |a| && n <= |z|
  {
    if n == 0 then ZERO else Xor(Dot(a, z, n - 1), Mul(a[n - 1], z[n - 1]))
  }

  // ----- dot products

  lemma {:induction false} DotScaled(c: Byte, a: Row, b: Row, z: Row, n: nat)
    requires n <= |a| && n <= |b| && n <= |z|
    requires forall j :: 0 <= j < n ==> b[j] == Mul(c, a[j])
    ensures Dot(b, z, n) == Mul(c, Dot(a, z, n))
  {
    hide Xor, Mul;
    MulZero(c);
    if n > 0 {
      DotScaled(c, a, b, z, n - 1);
      MulAssociates(c, a[n - 1], z[n - 1]);
      MulSum(c, Dot(a, z, n - 1), Mul(a[n - 1], z[n - 1]));
    }
  }

  lemma {:induction false} DotSubtracted(f: Byte, a: Row, b: Row, c: Row, z: Row, n: nat)
    requires n <= |a| && n <= |b| && n <= |c| && n <= |z|
    requires forall j :: 0 <= j < n ==> c[j] == Xor(a[j], Mul(f, b[j]))
    ensures Dot(c, z, n) == Xor(Dot(a, z, n), Mul(f, Dot(b, z, n)))
  {
    hide Xor, Mul;
    MulZero(f); XorZero(ZERO);
    if n > 0 {
      var a', b', z' := a[n - 1], b[n - 1], z[n - 1];
      DotSubtracted(f, a, b, c, z, n - 1);
      MulSumLeft(a', Mul(f, b'), z');
      MulAssociates(f, b', z');
      MulSum(f, Dot(b, z, n - 1), Mul(b', z'));
      XorSwap(Dot(a, z, n - 1), Mul(f, Dot(b, z, n - 1)), Mul(a', z'), Mul(f, Mul(b', z')));
    }
  }

  lemma {:induction false} DotVanishes(a: Row, z: Row, lo: nat, hi: nat)
    requires lo <= hi <= |a| && hi <= |z|
    requires forall j :: lo <= j < hi ==> a[j] == ZERO || z[j] == ZERO
    ensures Dot(a, z, hi) == Dot(a, z, lo)
  {
    hide Xor, Mul;
    if lo < hi {
      DotVanishes(a, z, lo, hi - 1);
      MulZero(a[hi - 1]); MulZero(z[hi - 1]);
      XorZero(Dot(a, z, hi - 1));
    }
  }

  /** A dot product with one live position. */
  lemma DotSingle(a: Row, z: Row, i: nat, n: nat)
    requires i < n <= |a| && n <= |z|
    requires forall j :: 0 <= j < n && j != i ==> a[j] == ZERO || z[j] == ZERO
    ensures Dot(a, z, n) == Mul(a[i], z[i])
  {
    hide Xor, Mul;
    DotVanishes(a, z, 0, i);
    DotVanishes(a, z, i + 1, n);
    XorZero(Mul(a[i], z[i]));
  }

  /** A dot product with two live positions. */
  lemma DotPair(a: Row, z: Row, i: nat, l: nat, n: nat)
    requires i < l < n <= |a| && n <= |z|
    requires forall j :: 0 <= j < n && j != i && j != l ==> a[j] == ZERO || z[j] == ZERO
    ensures Dot(a, z, n) == Xor(Mul(a[i], z[i]), Mul(a[l], z[l]))
  {
    hide Xor, Mul;
    DotSingle(a, z, i, l);
    DotVanishes(a, z, l + 1, n);
  }

  // ----- systems

  ghost predicate Shape(rows: seq<Row>, n: nat) {
    forall r :: 0 <= r < |rows| ==> |rows[r]| == n
  }

  /** z is orthogonal to every row. A solution x of the system whose right-hand
      side is column k + p is the vector x followed by the p-th unit vector. */
  ghost predicate InKernel(rows: seq<Row>, z: Row) {
    forall r :: 0 <= r < |rows| ==> |rows[r]| == |z| && Dot(rows[r], z, |z|) == ZERO
  }

  ghost predicate SameKernel(rows: seq<Row>, rows': seq<Row>, n: nat) {
    forall z: Row :: |z| == n ==> (InKernel(rows, z) <==> InKernel(rows', z))
  }

  lemma SwapKeepsKernel(rows: seq<Row>, i: nat, l: nat, n: nat)
    requires i < |rows| && l < |rows|
    ensures SameKernel(rows, rows[i := rows[l]][l := rows[i]], n)
  {
    hide Dot;
    var swapped := rows[i := rows[l]][l := rows[i]];
    forall z: Row | |z| == n ensures InKernel(rows, z) <==> InKernel(swapped, z) {
      if InKernel(rows, z) {
        forall r | 0 <= r < |swapped|
          ensures |swapped[r]| == |z| && Dot(swapped[r], z, |z|) == ZERO
        {
          assert swapped[r] == rows[if r == l then i else if r == i then l else r];
        }
      }
      if InKernel(swapped, z) {
        forall r | 0 <= r < |rows|
          ensures |rows[r]| == |z| && Dot(rows[r], z, |z|) == ZERO
        {
          assert rows[r] == swapped[if r == l then i else if r == i then l else r];
        }
      }
    }
  }

  lemma ScaleKeepsKernel(rows: seq<Row>, i: nat, c: Byte, scaled: Row, n: nat)
    requires i < |rows| && c != ZERO && |rows[i]| == |scaled| == n
    requires forall j :: 0 <= j < n ==> scaled[j] == Mul(c, rows[i][j])
    ensures SameKernel(rows, rows[i := scaled], n)
  {
    hide Dot, Mul;
    var rows' := rows[i := scaled];
    forall z: Row | |z| == n ensures InKernel(rows, z) <==> InKernel(rows', z) {
      DotScaled(c, rows[i], scaled, z, n);
      MulNonzero(c, Dot(rows[i], z, n));
      KernelUpdate(rows, i, scaled, z);
    }
  }

  lemma SubtractKeepsKernel(rows: seq<Row>, i: nat, l: nat, f: Byte, reduced: Row, n: nat)
    requires i < |rows| && l < |rows| && i != l && |rows[i]| == |rows[l]| == |reduced| == n
    requires forall j :: 0 <= j < n ==> reduced[j] == Xor(rows[i][j], Mul(f, rows[l][j]))
    ensures SameKernel(rows, rows[i := reduced], n)
  {
    hide Dot, Mul, Xor;
    var rows' := rows[i := reduced];
    assert rows'[l] == rows[l];
    forall z: Row | |z| == n ensures InKernel(rows, z) <==> InKernel(rows', z) {
      DotSubtracted(f, rows[i], rows[l], reduced, z, n);
      MulZero(f);
      XorZero(Dot(rows[i], z, n));
      KernelUpdate(rows, i, reduced, z);
    }
  }

  ghost predicate InKernelExcept(rows: seq<Row>, i: nat, z: Row) {
    forall r :: 0 <= r < |rows| && r != i ==> |rows[r]| == |z| && Dot(rows[r], z, |z|) == ZERO
  }

  /** Replacing row i leaves the kernel test of the other rows alone. */
  lemma KernelUpdate(rows: seq<Row>, i: nat, row: Row, z: Row)
    requires i < |rows| && |row| == |z| == |rows[i]|
    ensures InKernel(rows, z) <==> InKernelExcept(rows, i, z) && Dot(rows[i], z, |z|) == ZERO
    ensures InKernel(rows[i := row], z) <==> InKernelExcept(rows, i, z) && Dot(row, z, |z|) == ZERO
  {
    hide Dot;
    var rows' := rows[i := row];
    assert rows'[i] == row;
    if InKernel(rows', z) {
      forall r | 0 <= r < |rows| && r != i ensures |rows[r]| == |z| && Dot(rows[r], z, |z|) == ZERO {
        assert rows'[r] == rows[r];
      }
    }
  }

  // ----- Cauchy systems

  /** The sum of vs[j] / (x + ys[j]) over j < n. */
  ghost function CauchySum(x: Byte, ys: Row, vs: Row, n: nat): Byte
    requires n <= |ys| && n <= |vs|
  {
    if n == 0 then ZERO
    else Xor(CauchySum(x, ys, vs, n - 1), Mul(vs[n - 1], Inv(Xor(x, ys[n - 1]))))
  }

  ghost function Total(vs: Row, n: nat): Byte
    requires n <= |vs|
  {
    if n == 0 then ZERO else Xor(Total(vs, n - 1), vs[n - 1])
  }

  ghost predicate Distinct(s: Row) {
    forall i, j :: 0 <= i < j < |s| ==> s[i] != s[j]
  }

  ghost predicate Disjoint(s: Row, t: Row) {
    forall i, j :: 0 <= i < |s| && 0 <= j < |t| ==> s[i] != t[j]
  }

  /** (x + y) * v / (x + u) = v + v * (u + y) / (x + u). */
  lemma ShiftedTerm(x: Byte, y: Byte, u: Byte, v: Byte)
    requires x != u
    ensures Mul(Xor(x, y), Mul(v, Inv(Xor(x, u)))) ==
            Xor(v, Mul(Mul(v, Xor(u, y)), Inv(Xor(x, u))))
  {
    hide *;
    var q := Inv(Xor(x, u));
    assert Xor(x, y) == Xor(Xor(x, u), Xor(u, y)) by {
      XorAssociates(Xor(x, u), u, y); XorAssociates(x, u, u); XorZero(u); XorZero(x);
    }
    var s, t := Xor(x, u), Xor(u, y);
    XorCancels(x, u);
    MulInv(s);
    calc {
      Mul(Xor(x, y), Mul(v, q));
      { MulSumLeft(s, t, Mul(v, q)); }
      Xor(Mul(s, Mul(v, q)), Mul(t, Mul(v, q)));
      { MulCommutes(v, q); MulAssociates(s, q, v); MulOne(v); }
      Xor(v, Mul(t, Mul(v, q)));
      { MulAssociates(t, v, q); MulCommutes(t, v); }
      Xor(v, Mul(Mul(v, t), q));
    }
  }

  lemma {:induction false} ShiftedSum(x: Byte, y: Byte, ys: Row, vs: Row, ws: Row, n: nat)
    requires n <= |ys| && n <= |vs| && n <= |ws|
    requires forall j :: 0 <= j < n ==> x != ys[j] && ws[j] == Mul(vs[j], Xor(ys[j], y))
    ensures Mul(Xor(x, y), CauchySum(x, ys, vs, n)) == Xor(Total(vs, n), CauchySum(x, ys, ws, n))
  {
    hide Xor, Mul, Inv;
    MulZero(Xor(x, y)); XorZero(ZERO);
    if n > 0 {
      var u, v := ys[n - 1], vs[n - 1];
      ShiftedSum(x, y, ys, vs, ws, n - 1);
      ShiftedTerm(x, y, u, v);
      MulSum(Xor(x, y), CauchySum(x, ys, vs, n - 1), Mul(v, Inv(Xor(x, u))));
      XorSwap(Total(vs, n - 1), CauchySum(x, ys, ws, n - 1), v, Mul(ws[n - 1], Inv(Xor(x, u))));
    }
  }

  /** w / (x + u) + w / (z + u) = (x + z) * (w / (z + u)) / (x + u). */
  lemma DifferenceTerm(x: Byte, z: Byte, u: Byte, w: Byte)
    requires x != u && z != u
    ensures Xor(Mul(w, Inv(Xor(x, u))), Mul(w, Inv(Xor(z, u)))) ==
            Mul(Xor(x, z), Mul(Mul(w, Inv(Xor(z, u))), Inv(Xor(x, u))))
  {
    hide *;
    var p, q := Inv(Xor(x, u)), Inv(Xor(z, u));
    var w' := Mul(w, q);
    ShiftedTerm(x, z, u, w');
    XorCommutes(u, z); XorCancels(z, u);
    assert Mul(w', Xor(u, z)) == w by {
      MulAssociates(w, q, Xor(z, u)); MulInv(Xor(z, u));
      MulCommutes(w, ONE); MulOne(w);
    }
    XorCommutes(Mul(w, p), w');
  }

  lemma {:induction false} DifferenceSum(x: Byte, z: Byte, ys: Row, ws: Row, us: Row, n: nat)
    requires n <= |ys| && n <= |ws| && n <= |us|
    requires forall j :: 0 <= j < n ==> x != ys[j] && z != ys[j] && us[j] == Mul(ws[j], Inv(Xor(z, ys[j])))
    ensures Xor(CauchySum(x, ys, ws, n), CauchySum(z, ys, ws, n)) == Mul(Xor(x, z), CauchySum(x, ys, us, n))
  {
    hide Xor, Mul, Inv;
    MulZero(Xor(x, z)); XorZero(ZERO);
    if n > 0 {
      var u, w := ys[n - 1], ws[n - 1];
      DifferenceSum(x, z, ys, ws, us, n - 1);
      DifferenceTerm(x, z, u, w);
      MulSum(Xor(x, z), CauchySum(x, ys, us, n - 1), Mul(us[n - 1], Inv(Xor(x, u))));
      XorSwap(CauchySum(x, ys, ws, n - 1), Mul(w, Inv(Xor(x, u))),
              CauchySum(z, ys, ws, n - 1), Mul(w, Inv(Xor(z, u))));
    }
  }

  lemma {:induction false} ZeroSum(x: Byte, ys: Row, vs: Row, n: nat)
    requires n <= |ys| && n <= |vs|
    requires forall j :: 0 <= j < n ==> vs[j] == ZERO
    ensures CauchySum(x, ys, vs, n) == ZERO
  {
    hide Xor, Mul, Inv;
    if n > 0 {
      ZeroSum(x, ys, vs, n - 1);
      MulZero(Inv(Xor(x, ys[n - 1])));
      XorZero(ZERO);
    }
  }

  /** Eliminating the last unknown of a Cauchy system leaves a smaller one. */
  lemma Eliminated(xs: Row, ys: Row, vs: Row, ws: Row, us: Row, m: nat, i: nat)
    requires 0 < m <= |xs| && m <= |ys| && m <= |vs| && |ws| == |us| == m && i < m - 1
    requires Distinct(xs) && Distinct(ys) && Disjoint(xs, ys)
    requires CauchySum(xs[i], ys, vs, m) == CauchySum(xs[m - 1], ys, vs, m) == ZERO
    requires forall j :: 0 <= j < m ==> ws[j] == Mul(vs[j], Xor(ys[j], ys[m - 1]))
    requires forall j :: 0 <= j < m ==> us[j] == Mul(ws[j], Inv(Xor(xs[m - 1], ys[j])))
    ensures CauchySum(xs[i], ys, us, m - 1) == ZERO
  {
    hide Xor, Mul, Inv;
    var x, z, y := xs[i], xs[m - 1], ys[m - 1];
    assert ws[m - 1] == ZERO by { XorZero(y); MulZero(vs[m - 1]); }
    ShiftedSum(x, y, ys, vs, ws, m); MulZero(Xor(x, y));
    ShiftedSum(z, y, ys, vs, ws, m); MulZero(Xor(z, y));
    XorCancels(Total(vs, m), CauchySum(x, ys, ws, m));
    XorCancels(Total(vs, m), CauchySum(z, ys, ws, m));
    assert us[m - 1] == ZERO by { MulZero(Inv(Xor(z, y))); }
    DifferenceSum(x, z, ys, ws, us, m);
    XorZero(Total(vs, m));
    MulNonzero(Xor(x, z), CauchySum(x, ys, us, m));
    XorCancels(x, z);
    MulZero(Inv(Xor(x, y)));
    XorZero(CauchySum(x, ys, us, m - 1));
  }

  /** A Cauchy system with as many equations as unknowns has only the zero
      solution: every square submatrix of the generator is invertible. */
  lemma {:induction false} CauchySystem(xs: Row, ys: Row, vs: Row, m: nat)
    requires m <= |xs| && m <= |ys| && m <= |vs|
    requires Distinct(xs) && Distinct(ys) && Disjoint(xs, ys)
    requires forall i :: 0 <= i < m ==> CauchySum(xs[i], ys, vs, m) == ZERO
    ensures forall j :: 0 <= j < m ==> vs[j] == ZERO
    decreases m
  {
    hide Xor, Mul, Inv;
    if m > 0 {
      var z, y := xs[m - 1], ys[m - 1];
      var ws := seq(m, j requires 0 <= j < m => Mul(vs[j], Xor(ys[j], y)));
      var us := seq(m, j requires 0 <= j < m => Mul(ws[j], Inv(Xor(z, ys[j]))));
      forall i | 0 <= i < m - 1 ensures CauchySum(xs[i], ys, us, m - 1) == ZERO {
        Eliminated(xs, ys, vs, ws, us, m, i);
      }
      CauchySystem(xs, ys, us, m - 1);
      forall j | 0 <= j < m - 1 ensures vs[j] == ZERO {
        assert us[j] == Mul(ws[j], Inv(Xor(z, ys[j]))) == ZERO;
        XorCancels(z, ys[j]); InvNonzero(Xor(z, ys[j]));
        MulNonzero(ws[j], Inv(Xor(z, ys[j])));
        XorCancels(ys[j], y);
        MulNonzero(vs[j], Xor(ys[j], y));
      }
      ZeroSum(xs[m - 1], ys, vs, m - 1);
      XorZero(Mul(vs[m - 1], Inv(Xor(z, y))));
      XorCancels(z, y); InvNonzero(Xor(z, y));
      MulNonzero(vs[m - 1], Inv(Xor(z, y)));
    }
  }

  lemma InvNonzero(a: Byte)
    requires a != ZERO
    ensures Inv(a) != ZERO
  {
    hide *;
    MulInv(a);
    MulZero(a);
    OneNotZero();
  }

  lemma OneNotZero()
    ensures ONE != ZERO
  {
  }
}
