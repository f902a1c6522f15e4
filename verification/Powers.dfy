/** Powers of two, bit lengths and rounded-up division. */
module Powers {

  function Pow2(n: nat): (r: nat)
    ensures r >= 1
  {
    if n == 0 then 1 else 2 * Pow2(n - 1)
  }

  function BitLength(n: nat): nat {
    if n == 0 then 0 else 1 + BitLength(n / 2)
  }

  /** n lies between the power of two below its bit length and the one at it. */
  lemma {:induction false} BitLengthBounds(n: nat)
    ensures n < Pow2(BitLength(n))
    ensures n > 0 ==> BitLength(n) > 0 && Pow2(BitLength(n) - 1) <= n
  {
    if n > 0 {
      BitLengthBounds(n / 2);
      if n / 2 > 0 {
        assert Pow2(BitLength(n) - 1) == 2 * Pow2(BitLength(n / 2) - 1);
      }
    }
  }

  lemma {:induction false} Pow2Monotone(m: nat, n: nat)
    requires m <= n
    ensures Pow2(m) <= Pow2(n)
    ensures m < n ==> 2 * Pow2(m) <= Pow2(n)
    decreases n
  {
    if m < n { Pow2Monotone(m, n - 1); }
  }

  lemma {:induction false} Pow2Sum(m: nat, n: nat)
    ensures Pow2(m + n) == Pow2(m) * Pow2(n)
  {
    if m > 0 {
      Pow2Sum(m - 1, n);
      Pow2Next(m - 1);
      Pow2Next(m - 1 + n);
      hide Pow2;
      Twice(Pow2(m - 1), Pow2(n));
    } else {
      assert Pow2(0) == 1;
    }
  }

  lemma Pow2Next(m: nat)
    ensures Pow2(m + 1) == 2 * Pow2(m)
  {
  }

  lemma Twice(a: nat, b: nat)
    ensures (2 * a) * b == 2 * (a * b)
  {
  }

  /** A power of two that brackets n - 1 is the bit length of n - 1. */
  lemma BitLengthUnique(n: nat, m: nat)
    requires n > 0 && n <= Pow2(m) && (m > 0 ==> Pow2(m - 1) < n)
    ensures BitLength(n - 1) == m
  {
    var l := BitLength(n - 1);
    BitLengthBounds(n - 1);
    if l < m {
      Pow2Monotone(l, m - 1);
    } else if m < l {
      Pow2Monotone(m, l - 1);
    }
  }

  function CeilDiv(n: nat, d: nat): nat
    requires d > 0
  {
    (n + d - 1) / d
  }

  /** The multiples of d below n. */
  lemma CeilAbove(n: nat, d: nat, t: nat)
    requires d > 0
    ensures t < CeilDiv(n, d) <==> t * d < n
  {
    var m := n + d - 1;
    assert m == d * (m / d) + m % d;
    CeilBetween(n, d, m / d, t);
  }

  lemma CeilBetween(n: nat, d: nat, c: nat, t: nat)
    requires d * c <= n + d - 1 < d * c + d
    ensures t < c <==> t * d < n
  {
    if t < c {
      LeftGrows(d, t + 1, c);
      assert d * (t + 1) == t * d + d;
    } else {
      LeftGrows(d, c, t);
    }
  }

  lemma LeftGrows(per: nat, a: nat, b: nat)
    requires a <= b
    ensures per * a <= per * b
  {
  }

  lemma CeilIs(n: nat, d: nat, q: nat, r: nat)
    requires d > 0 && n == q * d + r && r < d
    ensures CeilDiv(n, d) == q + (if r > 0 then 1 else 0)
  {
    hide CeilDiv;
    var c := q + (if r > 0 then 1 else 0);
    CeilAbove(n, d, c);
    if c > 0 {
      CeilAbove(n, d, c - 1);
      assert (c - 1) * d == if r > 0 then q * d else q * d - d;
    }
    assert c * d == if r > 0 then q * d + d else q * d;
  }

  lemma DivideOut(r: nat, d: nat, q: nat)
    requires r < d
    ensures (r + d * q) / d == q && (r + d * q) % d == r
  {
    var n := r + d * q;
    assert n == d * (n / d) + n % d;
    OneQuotient(d, q, n / d, r, n % d);
  }

  lemma OneQuotient(d: nat, a: nat, b: nat, r: nat, s: nat)
    requires d * a + r == d * b + s && r < d && s < d
    ensures a == b && r == s
  {
    if a < b { NextMultiple(d, a, b); }
    if b < a { NextMultiple(d, b, a); }
  }

  lemma NextMultiple(d: nat, a: nat, b: nat)
    requires a < b
    ensures d * a + d <= d * b
  {
    LeftGrows(d, a + 1, b);
    assert d * (a + 1) == d * a + d;
  }
}
