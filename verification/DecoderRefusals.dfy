/** Which refusal the scope, capability and envelope decoders give, by what is
    in front of them, and the bytes of the smallest ones. */
module DecoderRefusals {
  import opened Cbor
  import opened CborRefusals
  import opened Scopes
  import opened Grammar
  import opened ScopeCodec
  import opened CapabilityGrammar
  import opened Capabilities

  // ----- scopes

  /** An empty range, or one whose end does not fit 64 bits. */
  lemma BadRange(b: Bytes, range: Range)
    requires Begins(b, RangeToken(range)) && !RangeOk(range)
    ensures GetRange(b) == Refused(InvalidRange)
  {
    hide Begins, Tail, GetRequired, GetItem;
    var open, offset, length := [Array(2)], [Uint(range.offset)], [Uint(range.length)];
    assert RangeToken(range) == open + (offset + length);
    BeginsJoin(b, open, offset + length);
    BeginsJoin(Tail(b, open), offset, length);
    RequiredGot(b, ARRAY, 2);
    FieldsFit(b, RangeToken(range));
    assert RangeToken(range)[1] == Uint(range.offset) && RangeToken(range)[2] == Uint(range.length);
    ItemGot(Tail(b, open), UNSIGNED, range.offset);
    ItemGot(Tail(Tail(b, open), offset), UNSIGNED, range.length);
  }

  /** Items in front are items that can be written. */
  lemma FieldsFit(b: Bytes, ts: seq<Token>)
    requires Begins(b, ts)
    ensures forall i :: 0 <= i < |ts| && ts[i].Item? ==> ts[i].value < U64
  {
    hide Flatten;
    forall i | 0 <= i < |ts| && ts[i].Item? ensures ts[i].value < U64 { assert Legal(ts[i]); }
  }

  /** A suite of more than sixteen bits is refused before the root is read. */
  lemma WideSuite(b: Bytes, suite: nat)
    requires suite >= 0x1_0000 && Begins(b, [Map(4)] + [Uint(0), Uint(suite)])
    ensures GetScope(b) == Refused(InvalidSuite(suite))
  {
    hide Begins, Tail, GetRequired, GetUintField;
    BeginsJoin(b, [Map(4)], [Uint(0), Uint(suite)]);
    RequiredGot(b, MAP, 4);
    FieldsFit(b, [Map(4)] + [Uint(0), Uint(suite)]);
    assert ([Map(4)] + [Uint(0), Uint(suite)])[2] == Uint(suite);
    UintFieldGot(Tail(b, [Map(4)]), 0, suite);
  }

  /** A scope within the reader's bounds is answered with its verdict. */
  lemma JudgedScope(b: Bytes, s: Scope)
    requires Typed(s) && |s.ranges| <= 64 && Begins(b, ScopeTokens(s))
    ensures GetScope(b) == if ScopeOk(s) then Done((s, Tail(b, ScopeTokens(s)))) else Refused(ScopeVerdict(s).refusal)
  {
    hide Begins, Tail, GetScopeHead, GetCountField, GetRange, GetMany, ScopeHead, RangeToken, ManyTokens, Separated, Within;
    var head, count := ScopeHead(s.suite, s.root, s.length), [Uint(3), Array(|s.ranges|)];
    var ranges := ManyTokens(RangeToken, s.ranges);
    BeginsJoin(b, head, count + ranges);
    BeginsJoin(Tail(b, head), count, ranges);
    ScopeHeadGot(b, s.suite, s.root, s.length);
    CountFieldGot(Tail(b, head), 3, ARRAY, 64, |s.ranges|);
    RangesGot(Tail(Tail(b, head), count), |s.ranges|, s.ranges);
  }

  /** Exactly the inputs past 4096 bytes are too big, and a scope with anything
      after it trails. */
  lemma ScopeEdges(input: Bytes, s: Scope, extra: Bytes)
    ensures |input| > 4096 <==> ScopeResult(input) == Refused(TooBig)
    ensures Typed(s) && ScopeOk(s) && extra != [] && |ScopeBytes(s) + extra| <= 4096 ==>
              ScopeResult(ScopeBytes(s) + extra) == Refused(Encoding(Trailing))
  {
    hide GetScope, ScopeOk, Typed, ScopeTokens, Flatten, Begins, Tail, AllLegal;
    NeverTooBig(input);
    if Typed(s) && ScopeOk(s) {
      ScopeFits(s);
      ScopeGot(ScopeBytes(s) + extra, s);
      Ahead(ScopeTokens(s), extra);
    }
  }

  /** Ranges past the bound are counted before the rules are looked at. */
  lemma NeverTooBig(b: Bytes)
    ensures GetScope(b) != Refused(TooBig)
  {
    hide GetRequired, GetKey, GetItem, GetPayload, GetCount, GetMany, GetRange, Separated, Within;
    PlainErrors(b);
    if GetScopeHead(b).Done? {
      var b1 := GetScopeHead(b).value.1;
      FieldErrors(b1);
      var count := GetCountField(b1, 3, ARRAY, MAX_RANGES);
      if count.Done? {
        CountFieldGot(b1, 3, ARRAY, MAX_RANGES, count.value.0);
        ManyErrors(count.value.1, count.value.0);
        var ranges := GetMany(GetRange, count.value.1, count.value.0);
        if ranges.Done? { RangesGot(count.value.1, count.value.0, ranges.value.0); }
      }
    }
  }

  lemma PlainErrors(b: Bytes)
    ensures GetScopeHead(b) != Refused(TooBig)
  {
    hide ParseItem, ParsePayload, After, HeadLen;
  }

  lemma FieldErrors(b: Bytes)
    ensures GetCountField(b, 3, ARRAY, MAX_RANGES) != Refused(TooBig)
  {
    hide ParseItem, After, HeadLen;
  }

  lemma {:induction false} ManyErrors(b: Bytes, count: nat)
    ensures GetMany(GetRange, b, count) != Refused(TooBig)
    decreases count
  {
    hide GetRange;
    if count > 0 {
      RangeErrors(b);
      if GetRange(b).Done? { ManyErrors(GetRange(b).value.1, count - 1); }
    }
  }

  lemma RangeErrors(b: Bytes)
    ensures GetRange(b) != Refused(TooBig)
  {
    hide ParseItem, After, HeadLen;
  }

  lemma Ahead(ts: seq<Token>, extra: Bytes)
    requires AllLegal(ts)
    ensures Begins(Flatten(ts) + extra, ts) && Tail(Flatten(ts) + extra, ts) == extra
  {
    hide Flatten, AllLegal;
  }

  // ----- capabilities

  /** A version other than zero is refused before anything else is read. */
  lemma OtherVersion(b: Bytes, u: Unicode, version: nat)
    requires version != 0
    ensures Begins(b, [Map(11)] + [Uint(0), Uint(version)]) ==> GetCapability(b, u) == Refused(UnsupportedVersion(version))
    ensures Begins(b, [Map(4)] + [Uint(0), Uint(version)]) ==> GetSigned(b) == Refused(UnsupportedVersion(version))
  {
    hide Begins, Tail, GetRequired, GetUintField;
    VersionAhead(b, 11, version);
    VersionAhead(b, 4, version);
  }

  lemma VersionAhead(b: Bytes, fields: nat, version: nat)
    ensures Begins(b, [Map(fields)] + [Uint(0), Uint(version)]) ==>
              && GetRequired(b, MAP, fields).Done? && GetUintField(GetRequired(b, MAP, fields).value.1, 0).Done?
              && GetUintField(GetRequired(b, MAP, fields).value.1, 0).value.0 == version
  {
    hide Begins, Tail, GetRequired, GetUintField;
    if Begins(b, [Map(fields)] + [Uint(0), Uint(version)]) {
      BeginsJoin(b, [Map(fields)], [Uint(0), Uint(version)]);
      RequiredGot(b, MAP, fields);
      FieldsFit(b, [Map(fields)] + [Uint(0), Uint(version)]);
      assert ([Map(fields)] + [Uint(0), Uint(version)])[2] == Uint(version);
      UintFieldGot(Tail(b, [Map(fields)]), 0, version);
    }
  }

  /** A limit's identifier of more than sixteen bits. */
  lemma WideLimit(b: Bytes, l: Limit)
    requires l.id >= 0x1_0000 && Begins(b, [Uint(l.id)])
    ensures GetLimit(b) == Refused(InvalidLimits)
  {
    hide Begins, Tail, GetItem;
    FieldsFit(b, [Uint(l.id)]);
    assert [Uint(l.id)][0] == Uint(l.id);
    ItemGot(b, UNSIGNED, l.id);
  }

  /** A capability within the reader's bounds is answered with the first rule it
      breaks, once nothing follows it. */
  lemma JudgedCapability(c: Capability, u: Unicode, extra: Bytes)
    requires Readable(c, u) && AllLegal(CapabilityTokens(c))
    ensures CapabilityResult(Flatten(CapabilityTokens(c)) + extra, u)
         == if extra != [] then Refused(Encoding(Trailing))
            else if Verdict(c, u).Done? then Done(c) else Refused(Verdict(c, u).refusal)
  {
    hide GetCapability, Readable, CapabilityTokens, Flatten, AllLegal, Verdict, Begins, Tail;
    var input := Flatten(CapabilityTokens(c)) + extra;
    CapabilityGot(input, u, c);
    Ahead(CapabilityTokens(c), extra);
  }

  /** Which refusal a capability gets that breaks one rule and keeps the others. */
  lemma OneRuleBroken(c: Capability, good: Capability, u: Unicode)
    requires CapabilityOk(good, u)
    ensures c == good.(issuer := c.issuer) && (c.issuer == [] || |c.issuer| > 128 || u.control(c.issuer)) ==>
              Verdict(c, u) == Refused(InvalidIdentity)
    ensures c == good.(audience := c.audience) && (c.audience == [] || |c.audience| > 128 || u.control(c.audience)) ==>
              Verdict(c, u) == Refused(InvalidIdentity)
    ensures c == good.(operations := c.operations) && !OperationsKept(c.operations) ==> Verdict(c, u) == Refused(InvalidOperations)
    ensures c == good.(limits := c.limits) && !LimitsKept(c.limits) ==>
              Verdict(c, u) == Refused(if |c.limits| > 16 then TooBig else InvalidLimits)
    ensures c == good.(scope := c.scope) && !ScopeOk(c.scope) ==> Verdict(c, u) == Refused(ScopeVerdict(c.scope).refusal)
    ensures c == good.(expiry := c.expiry) && c.expiry <= c.notBefore ==> Verdict(c, u) == Refused(InvalidValidity)
    ensures c == good.(delegation := c.delegation) && c.delegation != 0 ==>
              Verdict(c, u) == Refused(UnsupportedDelegation(c.delegation))
  {
    hide ScopeOk;
    if OperationsOk(c.operations) {
      forall i | 0 < i < |c.operations| ensures c.operations[i - 1] < c.operations[i] { }
    }
    if LimitsOk(c.limits) {
      forall i | 0 < i < |c.limits| ensures c.limits[i - 1].id < c.limits[i].id { }
    }
  }

  /** One to sixteen operations, each of sixteen bits and not zero, ascending. */
  ghost predicate OperationsKept(ops: seq<nat>) {
    && 1 <= |ops| <= 16 && (forall i :: 0 <= i < |ops| ==> 1 <= ops[i] <= 65535)
    && (forall i :: 0 < i < |ops| ==> ops[i - 1] < ops[i])
  }

  /** At most sixteen limits, none of them zero, ascending. */
  ghost predicate LimitsKept(limits: seq<Limit>) {
    && |limits| <= 16 && (forall i :: 0 <= i < |limits| ==> 1 <= limits[i].id)
    && (forall i :: 0 < i < |limits| ==> limits[i - 1].id < limits[i].id)
  }

  /** And the edges at which one is kept. */
  lemma RulesAtTheirEdges(good: Capability, u: Unicode, text: Bytes, ops: seq<nat>, limits: seq<Limit>)
    requires CapabilityOk(good, u)
    ensures 1 <= |text| <= 128 && !u.control(text) ==> CapabilityOk(good.(issuer := text, audience := text), u)
    ensures OperationsKept(ops) ==> CapabilityOk(good.(operations := ops), u)
    ensures LimitsKept(limits) ==> CapabilityOk(good.(limits := limits), u)
    ensures CapabilityOk(good.(expiry := good.notBefore + 1), u)
  {
    hide ScopeOk;
    if OperationsKept(ops) {
      Neighbours(ops);
      forall i, j | 0 <= i < j < |ops| ensures ops[i] < ops[j] { AscendsAll(ops, i, j); }
    }
    if LimitsKept(limits) {
      var ids := seq(|limits|, i requires 0 <= i < |limits| => limits[i].id);
      Neighbours(ids);
      forall i, j | 0 <= i < j < |limits| ensures limits[i].id < limits[j].id { AscendsAll(ids, i, j); }
    }
  }

  lemma Neighbours(values: seq<nat>)
    requires forall i :: 0 < i < |values| ==> values[i - 1] < values[i]
    ensures Ascends(values)
  {
    forall i | 0 <= i < |values| - 1 ensures values[i] < values[i + 1] {
      var j := i + 1;
      assert values[j - 1] < values[j];
    }
  }

  // ----- envelopes

  /** An empty key identifier; an input past 49152 bytes; anything after an envelope. */
  lemma SignedEdges(b: Bytes, s: SignedCapability, extra: Bytes)
    ensures Begins(b, ([Map(4)] + [Uint(0), Uint(0)]) + [Uint(1), ByteString([])]) ==> GetSigned(b) == Refused(InvalidKeyId)
    ensures |b| > 49152 <==> SignedResult(b) == Refused(TooBig)
    ensures TypedSigned(s) && KeyIdOk(s.keyId) && extra != [] && |SignedForm(s) + extra| <= 49152 ==>
              SignedResult(SignedForm(s) + extra) == Refused(Encoding(Trailing))
  {
    hide Begins, Tail, GetRequired, GetUintField, GetBytesField, SignedTokens, Flatten, AllLegal;
    var front := [Map(4)] + [Uint(0), Uint(0)];
    if Begins(b, front + [Uint(1), ByteString([])]) {
      BeginsJoin(b, front, [Uint(1), ByteString([])]);
      BeginsJoin(b, [Map(4)], [Uint(0), Uint(0)]);
      RequiredGot(b, MAP, 4);
      UintFieldGot(Tail(b, [Map(4)]), 0, 0);
      BytesFieldGot(Tail(b, front), 1, MAX_KEY_ID, []);
    }
    SignedErrors(b);
    hide GetSigned;
    if TypedSigned(s) {
      SignedSize(s);
      SignedGot(SignedForm(s) + extra, s);
      Ahead(SignedTokens(s), extra);
    }
  }

  lemma SignedErrors(b: Bytes)
    ensures GetSigned(b) != Refused(TooBig)
  {
    hide ParseItem, ParsePayload, After, HeadLen;
  }
}
