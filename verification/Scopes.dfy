/** Scopes of a capability: their rules, and their canonical form. */
module Scopes {
  import opened Wrappers
  import opened Cbor

  const MAX_RANGES := 64
  const MAX_SCOPE := 4096
  const U16: nat := 0x1_0000

  /** Why a capability or scope could not be read or written. */
  datatype Refusal =
    | Encoding(cause: Cbor.Error)
    | UnsupportedVersion(version: nat)
    | InvalidIdentity | InvalidKeyId | InvalidOperations | InvalidLimits
    | InvalidSuite(suite: nat)
    | InvalidRange | InvalidValidity
    | UnsupportedDelegation(delegation: nat)
    | TooBig

  datatype Outcome<T> = Done(value: T) | Refused(refusal: Refusal) {
    predicate IsFailure() {
      Refused?
    }
    function PropagateFailure<U>(): Outcome<U>
      requires IsFailure()
    {
      Outcome<U>.Refused(refusal)
    }
    function Extract(): T
      requires !IsFailure()
    {
      value
    }
  }

  function Lift<T>(r: Result<T>): Outcome<T> {
    match r case Ok(v) => Done(v) case Err(e) => Refused(Encoding(e))
  }

  /** Bytes [offset, offset + length) of an object. */
  datatype Range = Range(offset: nat, length: nat)

  function End(r: Range): nat {
    r.offset + r.length
  }

  /** What constructing a range checks: some bytes, and an end within 64 bits. */
  predicate RangeOk(r: Range) {
    r.length > 0 && End(r) < U64
  }

  datatype Scope = Scope(suite: nat, root: Bytes, length: Option<nat>, ranges: seq<Range>)

  /** What the field types alone say of a scope. */
  ghost predicate Typed(s: Scope) {
    && s.suite < U16 && |s.root| == 32 && (s.length.Some? ==> s.length.value < U64)
    && |s.ranges| < U64 && forall i :: 0 <= i < |s.ranges| ==> RangeOk(s.ranges[i])
  }

  /** Ascending, and strictly separated. */
  ghost predicate Separated(ranges: seq<Range>) {
    forall i, j :: 0 <= i < j < |ranges| ==> End(ranges[i]) < ranges[j].offset
  }

  ghost predicate Within(ranges: seq<Range>, length: Option<nat>) {
    length.Some? ==> forall i :: 0 <= i < |ranges| ==> End(ranges[i]) <= length.value
  }

  /** The rules the format fixes for a scope. */
  ghost predicate ScopeOk(s: Scope) {
    1 <= s.suite <= 2 && |s.ranges| <= MAX_RANGES && Separated(s.ranges) && Within(s.ranges, s.length)
  }

  /** What is wrong with a scope, in the order it is looked for. */
  ghost function ScopeVerdict(s: Scope): (r: Outcome<()>)
    ensures r.Done? <==> ScopeOk(s)
  {
    if !(1 <= s.suite <= 2) then Refused(InvalidSuite(s.suite))
    else if |s.ranges| > MAX_RANGES then Refused(TooBig)
    else if Separated(s.ranges) && Within(s.ranges, s.length) then Done(()) else Refused(InvalidRange)
  }

  method Validate(s: Scope) returns (r: Outcome<()>)
    requires Typed(s)
    ensures r == ScopeVerdict(s)
  {
    if !(1 <= s.suite <= 2) { return Refused(InvalidSuite(s.suite)); }
    if |s.ranges| > MAX_RANGES { return Refused(TooBig); }
    var previousEnd: Option<nat> := None;
    for i := 0 to |s.ranges|
      invariant previousEnd == if i == 0 then None else Some(End(s.ranges[i - 1]))
      invariant forall j, k :: 0 <= j < k < i ==> End(s.ranges[j]) < s.ranges[k].offset
      invariant forall j :: 0 <= j < i && s.length.Some? ==> End(s.ranges[j]) <= s.length.value
    {
      var range := s.ranges[i];
      if previousEnd.Some? && range.offset <= previousEnd.value { return Refused(InvalidRange); }
      if s.length.Some? && End(range) > s.length.value { return Refused(InvalidRange); }
      previousEnd := Some(End(range));
    }
    r := Done(());
  }

  /** Neighbours that leave a gap leave one between any two. */
  lemma {:induction false} NeighboursSeparate(ranges: seq<Range>, i: nat, j: nat)
    requires forall k :: 0 <= k < |ranges| ==> RangeOk(ranges[k])
    requires forall k :: 0 < k < |ranges| ==> End(ranges[k - 1]) < ranges[k].offset
    requires i < j < |ranges|
    ensures End(ranges[i]) < ranges[j].offset
    decreases j
  {
    if i < j - 1 { NeighboursSeparate(ranges, i, j - 1); }
  }

  /** Which refusal a scope gets, rule by rule. */
  lemma WhichRefusal(s: Scope)
    requires Typed(s)
    ensures s.suite != 1 && s.suite != 2 ==> ScopeVerdict(s) == Refused(InvalidSuite(s.suite))
    ensures s.suite in {1, 2} && |s.ranges| > 64 ==> ScopeVerdict(s) == Refused(TooBig)
    ensures s.suite in {1, 2} && |s.ranges| <= 64 ==>
              var gaps := forall k :: 0 < k < |s.ranges| ==> End(s.ranges[k - 1]) < s.ranges[k].offset;
              var inside := s.length.None? || forall k :: 0 <= k < |s.ranges| ==> End(s.ranges[k]) <= s.length.value;
              ScopeVerdict(s) == if gaps && inside then Done(()) else Refused(InvalidRange)
  {
    if forall k :: 0 < k < |s.ranges| ==> End(s.ranges[k - 1]) < s.ranges[k].offset {
      forall i, j | 0 <= i < j < |s.ranges| ensures End(s.ranges[i]) < s.ranges[j].offset {
        NeighboursSeparate(s.ranges, i, j);
      }
    }
  }

  // ----- what a scope allows

  /** Whether a range is inside what a scope allows. */
  predicate Allows(s: Scope, range: Range) {
    if s.ranges == [] then s.length.None? || End(range) <= s.length.value
    else exists i :: 0 <= i < |s.ranges| && Inside(range, s.ranges[i])
  }

  predicate Inside(range: Range, allowed: Range) {
    range.offset >= allowed.offset && End(range) <= End(allowed)
  }

  /** Byte b is one the scope lets through. */
  ghost predicate Allowed(s: Scope, b: nat) {
    if s.ranges == [] then s.length.None? || b < s.length.value
    else exists i :: 0 <= i < |s.ranges| && Covers(s.ranges[i], b)
  }

  ghost predicate Covers(range: Range, b: nat) {
    range.offset <= b < End(range)
  }

  /** A validated scope allows a range exactly when it lets through every byte of it. */
  lemma AllowsExact(s: Scope, range: Range)
    requires Typed(s) && ScopeOk(s) && RangeOk(range)
    ensures Allows(s, range) <==> forall b: nat :: Covers(range, b) ==> Allowed(s, b)
  {
    if Allows(s, range) {
      forall b: nat | Covers(range, b) ensures Allowed(s, b) {
        if s.ranges != [] {
          var i :| 0 <= i < |s.ranges| && Inside(range, s.ranges[i]);
          assert Covers(s.ranges[i], b);
        }
      }
    } else {
      var b := Missing(s, range);
      assert Covers(range, b) && !Allowed(s, b);
    }
  }

  /** A range a scope does not allow has a byte outside it: its first or last,
      or the gap after the allowed range it starts in. */
  lemma Missing(s: Scope, range: Range) returns (b: nat)
    requires Typed(s) && ScopeOk(s) && RangeOk(range) && !Allows(s, range)
    ensures Covers(range, b) && !Allowed(s, b)
  {
    if s.ranges == [] {
      b := End(range) - 1;
    } else if !Allowed(s, range.offset) {
      b := range.offset;
    } else {
      var i :| 0 <= i < |s.ranges| && Covers(s.ranges[i], range.offset);
      assert !Inside(range, s.ranges[i]);
      b := End(s.ranges[i]);
      assert RangeOk(s.ranges[i]);
      forall j | 0 <= j < |s.ranges| ensures !Covers(s.ranges[j], b) { GapAfter(s.ranges, i, j); }
    }
  }

  lemma GapAfter(ranges: seq<Range>, i: nat, j: nat)
    requires Separated(ranges) && i < |ranges| && j < |ranges| && RangeOk(ranges[i])
    ensures !Covers(ranges[j], End(ranges[i]))
  {
    if j < i { assert End(ranges[j]) < ranges[i].offset; }
    if i < j { assert End(ranges[i]) < ranges[j].offset; }
  }

  /** A validated scope lets nothing through past the length it names, and may
      name a range that reaches to its last byte. */
  lemma LengthBounds(s: Scope, b: nat)
    requires Typed(s) && ScopeOk(s) && s.length.Some? && Allowed(s, b)
    ensures b < s.length.value
    ensures ScopeOk(s.(ranges := [Range(0, s.length.value)]))
  {
  }

  /** Disjointness alone would not do: two adjacent ranges let every byte of
      their union through, and no range across the seam. */
  lemma AdjacentNotAllowed(root: Bytes)
    ensures var s := Scope(1, root, None, [Range(0, 1), Range(1, 1)]);
            var across := Range(0, 2);
            !Allows(s, across) && forall b: nat :: Covers(across, b) ==> Allowed(s, b)
  {
    var s := Scope(1, root, None, [Range(0, 1), Range(1, 1)]);
    forall b: nat | Covers(Range(0, 2), b) ensures Allowed(s, b) {
      assert Covers(s.ranges[b], b);
    }
  }
}
