/** The generator on 64-bit integers, and the object's bytes as integers. */
module WordValues {
  import opened Powers
  import opened Gf256
  import opened JumpAhead
  import opened ObjectStream

  /** The integer whose bits these are, least significant first. */
  function Value(bits: seq<Bit>): nat {
    if bits == [] then 0 else Join(bits[0], Value(bits[1..]))
  }

  lemma {:induction false} ValueBound(bits: seq<Bit>)
    ensures Value(bits) < Pow2(|bits|)
  {
    if bits != [] {
      ValueBound(bits[1..]);
      Pow2Next(|bits| - 1);
    }
  }

  lemma {:induction false} ValueZero(n: nat)
    ensures Value(seq(n, _ => O)) == 0
  {
    if n > 0 {
      ValueZero(n - 1);
      assert seq(n, _ => O)[1..] == seq(n - 1, _ => O);
    }
  }

  lemma {:induction false} ValueJoin(low: seq<Bit>, high: seq<Bit>)
    ensures Value(low + high) == Value(low) + Pow2(|low|) * Value(high)
    decreases |low|
  {
    if low == [] {
      assert low + high == high;
    } else {
      ValueJoin(low[1..], high);
      assert (low + high)[1..] == low[1..] + high;
      Pow2Next(|low| - 1);
      Twice(Pow2(|low| - 1), Value(high));
    }
  }

  /** The bits from `lo` to `hi` are the value divided and reduced by powers of two. */
  lemma ValueSlice(bits: seq<Bit>, lo: nat, hi: nat)
    requires lo <= hi <= |bits|
    ensures Pow2(lo) > 0 && Pow2(hi - lo) > 0 && Value(bits[lo..hi]) == Value(bits) / Pow2(lo) % Pow2(hi - lo)
  {
    hide Value, Pow2;
    var low, mid, high := bits[..lo], bits[lo..hi], bits[hi..];
    assert bits == low + (mid + high);
    ValueJoin(low, mid + high);
    ValueJoin(mid, high);
    ValueBound(low);
    ValueBound(mid);
    DivideOut(Value(low), Pow2(lo), Value(mid + high));
    DivideOut(Value(mid), Pow2(hi - lo), Value(high));
  }

  // ----- the operations of one draw

  lemma {:induction false} ValueXor(a: seq<Bit>, b: seq<Bit>, c: seq<Bit>)
    requires |a| == |b| == |c| && forall i :: 0 <= i < |a| ==> c[i] == Plus(a[i], b[i])
    ensures Value(c) == IntXor(Value(a), Value(b))
    decreases |a|
  {
    hide IntXor, Plus, Join;
    if a == [] {
      NoBits();
    } else {
      ValueXor(a[1..], b[1..], c[1..]);
      JoinXor(a[0], Value(a[1..]), b[0], Value(b[1..]));
    }
  }

  lemma NoBits()
    ensures IntXor(0, 0) == 0
  {
  }

  lemma ValueShiftRight(a: Word, n: nat)
    requires |a| == 64 && n <= 64
    ensures Pow2(n) > 0 && Value(ShiftRight(a, n)) == Value(a) / Pow2(n)
  {
    hide Value, Pow2;
    assert ShiftRight(a, n) == a[n..64] + seq(n, _ => O);
    ValueJoin(a[n..64], seq(n, _ => O));
    ValueZero(n);
    ValueSlice(a, n, 64);
    assert a == a[..n] + a[n..];
    ValueJoin(a[..n], a[n..]);
    ValueBound(a[..n]);
    assert a[n..] == a[n..64];
    DivideOut(Value(a[..n]), Pow2(n), Value(a[n..]));
  }

  lemma ValueShiftLeft(a: Word, n: nat)
    requires |a| == 64 && n <= 64
    ensures Pow2(64) > 0 && Value(ShiftLeft(a, n)) == Pow2(n) * Value(a) % Pow2(64)
  {
    hide Value, Pow2;
    ShiftedIn(a, n);
    ValueSplit(a, 64 - n);
    ValueBound(ShiftLeft(a, n));
    Pow2Sum(n, 64 - n);
    hide ShiftLeft;
    ShiftedMod(Pow2(n), Pow2(64 - n), Value(a[..64 - n]), Value(a[64 - n..]), Pow2(64));
  }

  lemma ValueSplit(a: Word, k: nat)
    requires k <= |a|
    ensures Value(a) == Value(a[..k]) + Pow2(k) * Value(a[k..])
  {
    hide Value, Pow2;
    assert a == a[..k] + a[k..];
    ValueJoin(a[..k], a[k..]);
  }

  lemma ShiftedMod(p: nat, q: nat, kept: nat, lost: nat, m: nat)
    requires m == p * q && p * kept < m
    ensures p * (kept + q * lost) % m == p * kept
  {
    ShiftedOut(p, q, kept, lost);
    DivideOut(p * kept, m, lost);
  }

  lemma ShiftedIn(a: Word, n: nat)
    requires |a| == 64 && n <= 64
    ensures Value(ShiftLeft(a, n)) == Pow2(n) * Value(a[..64 - n])
  {
    hide Value, Pow2;
    var zeros := seq(n, _ => O);
    assert ShiftLeft(a, n) == zeros + a[..64 - n];
    ValueJoin(zeros, a[..64 - n]);
    ValueZero(n);
  }

  lemma ShiftedOut(p: nat, q: nat, kept: nat, lost: nat)
    ensures p * (kept + q * lost) == p * kept + (p * q) * lost
  {
  }

  /** One draw, on integers: xorshift by 13, 7 and 17. */
  function IntStep(state: nat): nat {
    var a := IntXor(state, 0x2000 * state % 0x1_0000_0000_0000_0000);
    var b := IntXor(a, a / 0x80);
    IntXor(b, 0x2_0000 * b % 0x1_0000_0000_0000_0000)
  }

  lemma Pow2At7()
    ensures Pow2(7) == 0x80
  {
    assert Pow2(4) == 16 && Pow2(6) == 64;
  }

  lemma Pow2At13()
    ensures Pow2(13) == 0x2000 && Pow2(17) == 0x2_0000
  {
    Pow2At7();
    Pow2Sum(7, 6);
    Pow2Sum(13, 4);
    assert Pow2(6) == 64 && Pow2(4) == 16;
  }

  /** A draw is that function of the state's integer. */
  lemma StepValue(state: Word)
    requires |state| == 64
    ensures Value(Step(state)) == IntStep(Value(state))
  {
    hide Value, Pow2, IntXor, ShiftLeft, ShiftRight;
    Pow2At64();
    Pow2At7();
    Pow2At13();
    var a := Sum(state, ShiftLeft(state, 13));
    var b := Sum(a, ShiftRight(a, 7));
    ValueShiftLeft(state, 13);
    ValueXor(state, ShiftLeft(state, 13), a);
    ValueShiftRight(a, 7);
    ValueXor(a, ShiftRight(a, 7), b);
    ValueShiftLeft(b, 17);
    ValueXor(b, ShiftLeft(b, 17), Step(state));
  }

  /** The bits of the first draw from state one. */
  lemma FirstDraw(i: nat)
    requires i < 64
    ensures Step(Basis(0))[i] == I <==> i in {0, 6, 13, 17, 23, 30}
  {
  }

  // ----- the object's bytes

  lemma Nibble(a: Bit, b: Bit, c: Bit, d: Bit)
    ensures Value([a, b, c, d]) == Unit(a) + 2 * Unit(b) + 4 * Unit(c) + 8 * Unit(d)
  {
    assert Value([d]) == Unit(d) && Value([c, d]) == Join(c, Value([d]));
    assert [a, b, c, d][1..] == [b, c, d] && [b, c, d][1..] == [c, d];
  }

  lemma Sixteen(a: seq<Bit>, b: seq<Bit>, c: seq<Bit>, d: seq<Bit>)
    requires |a| == |b| == |c| == |d| == 4
    ensures Value(a + b + c + d) == Value(a) + 0x10 * Value(b) + 0x100 * Value(c) + 0x1000 * Value(d)
  {
    hide Value;
    Pow2At4();
    ValueJoin(a, b);
    ValueJoin(a + b, c);
    ValueJoin(a + b + c, d);
  }

  lemma Pow2At4()
    ensures Pow2(4) == 0x10 && Pow2(8) == 0x100 && Pow2(12) == 0x1000 && Pow2(16) == 0x1_0000
  {
    Pow2Sum(4, 4);
    Pow2Sum(8, 4);
    Pow2Sum(8, 8);
  }

  lemma MaskLow()
    ensures Value(SeedMask()[..16]) == 0x7c15 && Value(SeedMask()[16..32]) == 0x7f4a
  {
    Nibble(I, O, I, O); Nibble(I, O, O, O); Nibble(O, O, I, I); Nibble(I, I, I, O);
    Nibble(O, I, O, I); Nibble(O, O, I, O); Nibble(I, I, I, I); Nibble(I, I, I, O);
    hide Value;
    Sixteen([I, O, I, O], [I, O, O, O], [O, O, I, I], [I, I, I, O]);
    Sixteen([O, I, O, I], [O, O, I, O], [I, I, I, I], [I, I, I, O]);
    assert SeedMask()[..16] == [I, O, I, O] + [I, O, O, O] + [O, O, I, I] + [I, I, I, O];
    assert SeedMask()[16..32] == [O, I, O, I] + [O, O, I, O] + [I, I, I, I] + [I, I, I, O];
  }

  lemma MaskHigh()
    ensures Value(SeedMask()[32..48]) == 0x79b9 && Value(SeedMask()[48..]) == 0x9e37
  {
    Nibble(I, O, O, I); Nibble(I, I, O, I); Nibble(I, O, O, I); Nibble(I, I, I, O);
    Nibble(I, I, I, O); Nibble(I, I, O, O); Nibble(O, I, I, I); Nibble(I, O, O, I);
    hide Value;
    Sixteen([I, O, O, I], [I, I, O, I], [I, O, O, I], [I, I, I, O]);
    Sixteen([I, I, I, O], [I, I, O, O], [O, I, I, I], [I, O, O, I]);
    assert SeedMask()[32..48] == [I, O, O, I] + [I, I, O, I] + [I, O, O, I] + [I, I, I, O];
    assert SeedMask()[48..] == [I, I, I, O] + [I, I, O, O] + [O, I, I, I] + [I, O, O, I];
  }

  lemma MaskValue()
    ensures Value(SeedMask()) == 0x9e37_79b9_7f4a_7c15
  {
    hide Value, SeedMask, Pow2;
    MaskLow();
    MaskHigh();
    var m := SeedMask();
    Quarters(m[..16], m[16..32], m[32..48], m[48..]);
    assert m == (m[..16] + m[16..32]) + (m[32..48] + m[48..]);
  }

  lemma Quarters(a: seq<Bit>, b: seq<Bit>, c: seq<Bit>, d: seq<Bit>)
    requires |a| == |b| == |c| == |d| == 16
    ensures Value((a + b) + (c + d))
         == Value(a) + 0x1_0000 * Value(b) + 0x1_0000_0000 * Value(c) + 0x1_0000_0000_0000 * Value(d)
  {
    hide Value;
    ShortPair(a, b);
    ShortPair(c, d);
    LongPair(a + b, c + d);
  }

  lemma ShortPair(a: seq<Bit>, b: seq<Bit>)
    requires |a| == 16
    ensures Value(a + b) == Value(a) + 0x1_0000 * Value(b)
  {
    hide Value, Pow2;
    Pow2At4();
    ValueJoin(a, b);
  }

  lemma LongPair(a: seq<Bit>, b: seq<Bit>)
    requires |a| == 32
    ensures Value(a + b) == Value(a) + 0x1_0000_0000 * Value(b)
  {
    hide Value, Pow2;
    assert Pow2(32) == 0x1_0000_0000 by { Pow2At4(); Pow2Sum(16, 16); }
    ValueJoin(a, b);
  }

  /** The state a seed starts in. */
  lemma StartValue(seed: Word)
    requires |seed| == 64
    ensures Value(Start(seed)) == IntXor(Value(seed), 0x9e37_79b9_7f4a_7c15)
  {
    hide Value, IntXor, SeedMask, Plus;
    MaskValue();
    ValueXor(seed, SeedMask(), Start(seed));
  }

  function IntDraws(n: nat, state: nat): nat {
    if n == 0 then state else IntStep(IntDraws(n - 1, state))
  }

  lemma {:induction false} DrawsValue(n: nat, state: Word)
    requires |state| == 64
    ensures Value(Steps(n, state)) == IntDraws(n, Value(state))
  {
    hide Step, IntStep, Value;
    if n > 0 {
      DrawsValue(n - 1, state);
      StepValue(Steps(n - 1, state));
    }
  }

  /** Byte p of the object, on integers: byte p % 8 of draw p / 8 + 1, little-endian. */
  lemma ObjectByteValue(seed: Word, p: nat)
    requires |seed| == 64
    ensures var word := IntDraws(p / 8 + 1, IntXor(Value(seed), 0x9e37_79b9_7f4a_7c15));
            Pow2(8 * (p % 8)) > 0 && Value(StreamByte(seed, p)) == word / Pow2(8 * (p % 8)) % 256
  {
    hide Value, IntXor, Start, Steps, Pow2;
    StartValue(seed);
    DrawsValue(p / 8 + 1, Start(seed));
    ValueSlice(Steps(p / 8 + 1, Start(seed)), 8 * (p % 8), 8 * (p % 8) + 8);
    Pow2At4();
  }
}
