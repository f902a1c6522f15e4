/** The object generator's 64-bit state, one draw at a time and, through powers
    of a bit matrix, any number of draws at once. A word is its 64 bits, least
    significant first. */
module JumpAhead {
  import opened Powers
  import opened Gf256

  type Word = seq<Bit>

  function Empty(): (r: Word)
    ensures |r| == 64
  {
    seq(64, _ => O)
  }

  function Sum(a: Word, b: Word): (r: Word)
    requires |a| == |b| == 64
    ensures |r| == 64
  {
    seq(64, i requires 0 <= i < 64 => Plus(a[i], b[i]))
  }

  function ShiftLeft(a: Word, n: nat): (r: Word)
    requires |a| == 64
    ensures |r| == 64
  {
    seq(64, i requires 0 <= i < 64 => if i < n then O else a[i - n])
  }

  function ShiftRight(a: Word, n: nat): (r: Word)
    requires |a| == 64
    ensures |r| == 64
  {
    seq(64, i requires 0 <= i < 64 => if i + n < 64 then a[i + n] else O)
  }

  /** One draw. */
  function Step(state: Word): (r: Word)
    requires |state| == 64
    ensures |r| == 64
  {
    var a := Sum(state, ShiftLeft(state, 13));
    var b := Sum(a, ShiftRight(a, 7));
    Sum(b, ShiftLeft(b, 17))
  }

  /** n draws. */
  function Steps(n: nat, state: Word): (r: Word)
    requires |state| == 64
    ensures |r| == 64
  {
    if n == 0 then state else Step(Steps(n - 1, state))
  }

  // ----- draws are linear

  lemma SumSwap(a: Word, b: Word, c: Word, d: Word)
    requires |a| == |b| == |c| == |d| == 64
    ensures Sum(Sum(a, b), Sum(c, d)) == Sum(Sum(a, c), Sum(b, d))
  {
    hide Plus;
    forall i | 0 <= i < 64 ensures Sum(Sum(a, b), Sum(c, d))[i] == Sum(Sum(a, c), Sum(b, d))[i] {
      PlusLaws(a[i], b[i], c[i], d[i]);
    }
  }

  lemma SumEmpty(a: Word)
    requires |a| == 64
    ensures Sum(a, Empty()) == a && Sum(Empty(), a) == a
  {
  }

  lemma ShiftSums(a: Word, b: Word, n: nat)
    requires |a| == |b| == 64
    ensures ShiftLeft(Sum(a, b), n) == Sum(ShiftLeft(a, n), ShiftLeft(b, n))
    ensures ShiftRight(Sum(a, b), n) == Sum(ShiftRight(a, n), ShiftRight(b, n))
  {
  }

  lemma StepSum(a: Word, b: Word)
    requires |a| == |b| == 64
    ensures Step(Sum(a, b)) == Sum(Step(a), Step(b))
  {
    hide Sum, ShiftLeft, ShiftRight;
    ShiftSums(a, b, 13);
    SumSwap(a, b, ShiftLeft(a, 13), ShiftLeft(b, 13));
    var a1, b1 := Sum(a, ShiftLeft(a, 13)), Sum(b, ShiftLeft(b, 13));
    ShiftSums(a1, b1, 7);
    SumSwap(a1, b1, ShiftRight(a1, 7), ShiftRight(b1, 7));
    var a2, b2 := Sum(a1, ShiftRight(a1, 7)), Sum(b1, ShiftRight(b1, 7));
    ShiftSums(a2, b2, 17);
    SumSwap(a2, b2, ShiftLeft(a2, 17), ShiftLeft(b2, 17));
  }

  lemma {:induction false} StepsSum(n: nat, a: Word, b: Word)
    requires |a| == |b| == 64
    ensures Steps(n, Sum(a, b)) == Sum(Steps(n, a), Steps(n, b))
  {
    hide Step, Sum;
    if n > 0 {
      StepsSum(n - 1, a, b);
      StepSum(Steps(n - 1, a), Steps(n - 1, b));
    }
  }

  lemma ShiftEmpty(n: nat)
    ensures ShiftLeft(Empty(), n) == Empty() && ShiftRight(Empty(), n) == Empty()
  {
  }

  lemma StepEmpty()
    ensures Step(Empty()) == Empty()
  {
    hide Sum, ShiftLeft, ShiftRight, Empty;
    SumEmpty(Empty());
    ShiftEmpty(13); ShiftEmpty(7); ShiftEmpty(17);
  }

  lemma {:induction false} StepsEmpty(n: nat)
    ensures Steps(n, Empty()) == Empty()
  {
    hide Step, Empty;
    if n > 0 {
      StepsEmpty(n - 1);
      StepEmpty();
    }
  }

  lemma {:induction false} StepsAdd(m: nat, n: nat, s: Word)
    requires |s| == 64
    ensures Steps(m + n, s) == Steps(m, Steps(n, s))
  {
    hide Step;
    if m > 0 { StepsAdd(m - 1, n, s); }
  }

  // ----- states as sums of their bits

  /** The basis state 1 << n. */
  function Basis(n: nat): (r: Word)
    ensures |r| == 64
  {
    seq(64, i => if i == n then I else O)
  }

  /** The state's bits below n. */
  function LowBits(s: Word, n: nat): (r: Word)
    requires |s| == 64
    ensures |r| == 64
  {
    seq(64, i requires 0 <= i < 64 => if i < n then s[i] else O)
  }

  lemma LowBitsNext(s: Word, n: nat)
    requires |s| == 64 && n < 64
    ensures LowBits(s, n + 1) == if s[n] == I then Sum(LowBits(s, n), Basis(n)) else LowBits(s, n)
  {
  }

  lemma LowBitsEnds(s: Word)
    requires |s| == 64
    ensures LowBits(s, 0) == Empty() && LowBits(s, 64) == s
  {
  }

  // ----- the matrix

  /** A 64-column bit matrix applied to a state: the columns its low n bits select, summed. */
  function Applied(matrix: seq<Word>, state: Word, n: nat): (r: Word)
    requires n <= |matrix| <= 64 && |state| == 64 && forall b :: 0 <= b < n ==> |matrix[b]| == 64
    ensures |r| == 64
  {
    if n == 0 then Empty()
    else if state[n - 1] == I then Sum(Applied(matrix, state, n - 1), matrix[n - 1])
    else Applied(matrix, state, n - 1)
  }

  /** Column b is k draws from basis state b. */
  ghost predicate Columns(matrix: seq<Word>, k: nat) {
    |matrix| == 64 && forall b :: 0 <= b < 64 ==> matrix[b] == Steps(k, Basis(b))
  }

  lemma {:induction false} AppliedIsSteps(matrix: seq<Word>, k: nat, s: Word, n: nat)
    requires Columns(matrix, k) && n <= 64 && |s| == 64
    ensures Applied(matrix, s, n) == Steps(k, LowBits(s, n))
  {
    hide Sum, Steps, Basis, LowBits;
    if n == 0 {
      LowBitsEnds(s);
      StepsEmpty(k);
    } else {
      AppliedIsSteps(matrix, k, s, n - 1);
      LowBitsNext(s, n - 1);
      StepsSum(k, LowBits(s, n - 1), Basis(n - 1));
    }
  }

  /** Applying the k-draw matrix is drawing k times. */
  lemma MatrixDraws(matrix: seq<Word>, k: nat, s: Word)
    requires Columns(matrix, k) && |s| == 64
    ensures Applied(matrix, s, 64) == Steps(k, s)
  {
    hide Applied, Steps, LowBits;
    AppliedIsSteps(matrix, k, s, 64);
    LowBitsEnds(s);
  }

  method Apply(matrix: seq<Word>, state: Word) returns (out: Word)
    requires |matrix| == 64 && |state| == 64 && forall b :: 0 <= b < 64 ==> |matrix[b]| == 64
    ensures out == Applied(matrix, state, 64)
  {
    hide Sum;
    out := Empty();
    for bit := 0 to 64
      invariant out == Applied(matrix, state, bit)
    {
      if state[bit] == I {
        out := Sum(out, matrix[bit]);
      }
    }
  }

  method Square(matrix: seq<Word>, ghost k: nat) returns (out: seq<Word>)
    requires Columns(matrix, k)
    ensures Columns(out, 2 * k)
  {
    hide Applied, Steps, Basis;
    var columns := new Word[64](_ => Empty());
    for bit := 0 to 64
      invariant forall b :: 0 <= b < bit ==> columns[b] == Steps(2 * k, Basis(b))
    {
      columns[bit] := Apply(matrix, matrix[bit]);
      MatrixDraws(matrix, k, matrix[bit]);
      StepsAdd(k, k, Basis(bit));
    }
    out := columns[..];
  }

  const U64_LIMIT: nat := 0x1_0000_0000_0000_0000

  /** Jumps `draws` draws ahead of `state`, one squaring per bit of the count. */
  method Advance(state: Word, draws: nat) returns (result: Word)
    requires |state| == 64 && draws < U64_LIMIT
    ensures result == Steps(draws, state)
  {
    hide Applied, Step, Steps, Basis, Columns, Accounts;
    var matrix := OneDraw();
    result := state;
    var remaining: nat := draws;
    ghost var k: nat, done: nat := 1, 0;
    NothingDone(state, draws);
    for i := 0 to 64
      invariant Columns(matrix, k) && Accounts(draws, done, k, remaining, i)
      invariant result == Steps(done, state)
    {
      AccountsStep(draws, done, k, remaining, i);
      if remaining % 2 == 1 {
        MatrixShape(matrix, k);
        MatrixDraws(matrix, k, result);
        StepsAdd(k, done, state);
        result := Apply(matrix, result);
        done := done + k;
      }
      matrix := Square(matrix, k);
      remaining := remaining / 2;
      k := 2 * k;
    }
    AllDone(draws, done, k, remaining);
  }

  /** The matrix of one draw: column b is the draw of basis state b. */
  method OneDraw() returns (matrix: seq<Word>)
    ensures Columns(matrix, 1)
  {
    hide Applied, Step, Basis;
    var columns := new Word[64](_ => Empty());
    for bit := 0 to 64
      invariant forall b :: 0 <= b < bit ==> columns[b] == Steps(1, Basis(b))
    {
      columns[bit] := Step(Basis(bit));
    }
    matrix := columns[..];
  }

  /** Draws made and draws to come: `remaining` matrices of k draws each. */
  ghost predicate Accounts(draws: nat, done: nat, k: nat, remaining: nat, i: nat) {
    k > 0 && draws == done + k * remaining && remaining * Pow2(i) <= draws
  }

  lemma MatrixShape(matrix: seq<Word>, k: nat)
    requires Columns(matrix, k)
    ensures |matrix| == 64 && forall b :: 0 <= b < 64 ==> |matrix[b]| == 64
  {
    hide Steps;
  }

  lemma NothingDone(state: Word, draws: nat)
    requires |state| == 64
    ensures Steps(0, state) == state && Accounts(draws, 0, 1, draws, 0)
  {
  }

  lemma AccountsStep(draws: nat, done: nat, k: nat, remaining: nat, i: nat)
    requires Accounts(draws, done, k, remaining, i)
    ensures k > 0
    ensures Accounts(draws, if remaining % 2 == 1 then done + k else done, 2 * k, remaining / 2, i + 1)
  {
    hide Pow2;
    Halved(k, remaining, i);
  }

  lemma AllDone(draws: nat, done: nat, k: nat, remaining: nat)
    requires Accounts(draws, done, k, remaining, 64) && draws < U64_LIMIT
    ensures done == draws
  {
    hide Pow2;
    Pow2At64();
    NothingLeft(remaining, draws);
  }

  lemma Halved(k: nat, remaining: nat, i: nat)
    ensures k * remaining == (if remaining % 2 == 1 then k else 0) + 2 * k * (remaining / 2)
    ensures (remaining / 2) * Pow2(i + 1) <= remaining * Pow2(i)
  {
    var h := remaining / 2;
    var p := Pow2(i);
    if remaining % 2 == 1 {
      assert remaining == 2 * h + 1;
    } else {
      assert remaining == 2 * h;
    }
    assert h * (2 * p) == (2 * h) * p;
  }

  lemma NothingLeft(remaining: nat, draws: nat)
    requires remaining * Pow2(64) <= draws < U64_LIMIT
    ensures remaining == 0
  {
    hide Pow2;
    Pow2At64();
  }

  lemma Pow2At64()
    ensures Pow2(64) == U64_LIMIT
  {
    hide Pow2;
    Pow2At8();
    Pow2Sum(8, 8);
    Pow2Sum(16, 16);
    Pow2Sum(32, 32);
  }

  lemma Pow2At8()
    ensures Pow2(8) == 256
  {
  }
}
