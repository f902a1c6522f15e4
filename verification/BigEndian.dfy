/** Unsigned integers as bytes, most significant first. */
module BigEndian {

  type octet = n: nat | n < 256

  /** v in n bytes. */
  function Big(v: nat, n: nat): (r: seq<octet>)
    ensures |r| == n
  {
    if n == 0 then [] else Big(v / 256, n - 1) + [v % 256]
  }

  function Num(b: seq<octet>): nat {
    if b == [] then 0 else 256 * Num(b[..|b| - 1]) + b[|b| - 1]
  }

  function Span(n: nat): nat {
    if n == 0 then 1 else 256 * Span(n - 1)
  }

  lemma {:induction false} NumBig(v: nat, n: nat)
    requires v < Span(n)
    ensures Num(Big(v, n)) == v
  {
    hide Big, Num;
    if n == 0 {
      BigNone(v);
    } else {
      Base256(v, Span(n - 1));
      BigStep(v, n);
      var high, low := v / 256, v % 256;
      NumBig(high, n - 1);
      BigNext(high, low, n - 1);
    }
  }

  lemma BigNone(v: nat)
    ensures Big(v, 0) == [] && Num([]) == 0
  {
  }

  lemma BigStep(v: nat, n: nat)
    requires n > 0
    ensures Big(v, n) == Big(v / 256, n - 1) + [v % 256]
  {
  }

  lemma Base256(v: nat, span: nat)
    requires v < 256 * span
    ensures v / 256 < span && 256 * (v / 256) + v % 256 == v
  {
  }

  lemma BigNext(high: nat, low: octet, n: nat)
    ensures Num(Big(high, n) + [low]) == 256 * Num(Big(high, n)) + low
  {
    hide Big;
    var b := Big(high, n) + [low];
    assert b[..n] == Big(high, n);
  }

  lemma {:induction false} BigNum(b: seq<octet>)
    ensures Num(b) < Span(|b|) && Big(Num(b), |b|) == b
  {
    hide Big, Num;
    if b == [] {
      BigNone(0);
    } else {
      var front, last := b[..|b| - 1], b[|b| - 1];
      BigNum(front);
      NumStep(b);
      Digits(Num(front), last);
      BigStep(Num(b), |b|);
      assert front + [last] == b;
    }
  }

  lemma NumStep(b: seq<octet>)
    requires b != []
    ensures Num(b) == 256 * Num(b[..|b| - 1]) + b[|b| - 1]
  {
  }

  lemma Digits(high: nat, low: octet)
    ensures (256 * high + low) / 256 == high && (256 * high + low) % 256 == low
  {
  }

  lemma Spans()
    ensures Span(1) == 0x100 && Span(2) == 0x1_0000 && Span(4) == 0x1_0000_0000 && Span(8) == 0x1_0000_0000_0000_0000
  {
    assert Span(3) == 0x100_0000 && Span(5) == 0x100_0000_0000 && Span(6) == 0x1_0000_0000_0000;
    assert Span(7) == 0x100_0000_0000_0000;
  }

  /** The first byte is the most significant. */
  lemma {:induction false} MostSignificantFirst(b: seq<octet>)
    requires b != []
    ensures Num(b) == b[0] * Span(|b| - 1) + Num(b[1..])
    decreases |b|
  {
    if |b| > 1 {
      var front := b[..|b| - 1];
      MostSignificantFirst(front);
      assert front[1..] == b[1..][..|b| - 2];
      hide Num;
      NumStep(b);
      NumStep(b[1..]);
      Scaled(b[0], Span(|b| - 2));
    }
  }

  lemma Scaled(a: nat, b: nat)
    ensures 256 * (a * b) == a * (256 * b)
  {
  }
}
