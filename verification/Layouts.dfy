/** The canonical bytes of scopes, capabilities and envelopes, byte by byte. */
module Layouts {
  import opened Wrappers
  import opened BigEndian
  import opened Cbor
  import opened CborRefusals
  import opened Scopes
  import opened Grammar
  import opened ScopeCodec
  import opened CapabilityGrammar
  import opened Capabilities

  lemma OneBytes(t: Token)
    requires Legal(t)
    ensures AllLegal([t]) && Flatten([t]) == TokenBytes(t)
  {
    hide TokenBytes, Legal;
    assert [] + [t] == [t];
    FlattenAppend([], t);
    assert Flatten([]) + TokenBytes(t) == TokenBytes(t);
  }

  /** A small key is one byte in front of its value. */
  lemma FieldBytes(key: nat, t: Token)
    requires key <= 23 && Legal(t)
    ensures AllLegal([Uint(key), t]) && Flatten([Uint(key), t]) == [key] + TokenBytes(t)
  {
    OneBytes(Uint(key));
    OneBytes(t);
    hide Flatten, AllLegal, Legal;
    FlattenJoin([Uint(key)], [t]);
    assert [Uint(key)] + [t] == [Uint(key), t];
  }

  lemma UintBytes(key: nat, value: nat)
    requires key <= 23 && value < U64
    ensures AllLegal([Uint(key), Uint(value)]) && Flatten([Uint(key), Uint(value)]) == [key] + HeadBytes(0, value)
  {
    hide Flatten, AllLegal, HeadBytes;
    FieldBytes(key, Uint(value));
  }

  lemma StringBytes(key: nat, kind: nat, bytes: Bytes)
    requires key <= 23 && kind < 7 && |bytes| < U64
    ensures AllLegal([Uint(key), Payload(kind, bytes)])
    ensures Flatten([Uint(key), Payload(kind, bytes)]) == [key] + (HeadBytes(kind, |bytes|) + bytes)
  {
    hide Flatten, AllLegal, HeadBytes;
    FieldBytes(key, Payload(kind, bytes));
  }

  lemma MapBytes(n: nat)
    requires n < U64
    ensures AllLegal([Map(n)]) && Flatten([Map(n)]) == HeadBytes(5, n)
  {
    hide Flatten, AllLegal, HeadBytes;
    OneBytes(Map(n));
  }

  lemma ZeroHead()
    ensures HeadBytes(0, 0) == [0x00] && [0x00] + HeadBytes(0, 0) == [0x00, 0x00]
  {
  }

  /** Parts in a row. */
  lemma FiveParts(a: seq<Token>, b: seq<Token>, c: seq<Token>, d: seq<Token>, e: seq<Token>)
    requires AllLegal(a) && AllLegal(b) && AllLegal(c) && AllLegal(d) && AllLegal(e)
    ensures AllLegal(a + (b + (c + (d + e))))
    ensures Flatten(a + (b + (c + (d + e)))) == Flatten(a) + (Flatten(b) + (Flatten(c) + (Flatten(d) + Flatten(e))))
  {
    hide Flatten, AllLegal;
    FlattenJoin(d, e);
    FlattenJoin(c, d + e);
    FlattenJoin(b, c + (d + e));
    FlattenJoin(a, b + (c + (d + e)));
  }

  /** Heads of the lengths the formats fix. */
  lemma FixedHeads()
    ensures HeadBytes(MAP, 4) == [0xa4] && HeadBytes(MAP, 11) == [0xab] && HeadBytes(ARRAY, 2) == [0x82]
    ensures HeadBytes(BYTES, 32) == [0x58, 0x20] && HeadBytes(BYTES, 64) == [0x58, 0x40] && HeadBytes(BYTES, 16) == [0x50]
  {
    BigOne(32);
    BigOne(64);
    hide Big;
  }

  /** An envelope: four fields under the keys 0 to 3. */
  lemma SignedLayout(s: SignedCapability)
    requires TypedSigned(s)
    ensures SignedForm(s)
         == [0xa4] + ([0x00, 0x00] + (([0x01] + (HeadBytes(2, |s.keyId|) + s.keyId))
            + (([0x02] + (HeadBytes(2, |s.capability|) + s.capability)) + ([0x03] + ([0x58, 0x40] + s.signature)))))
  {
    hide Flatten, AllLegal, HeadBytes;
    var open, versioned, keyed := [Map(4)], [Uint(0), Uint(0)], [Uint(1), ByteString(s.keyId)];
    var covered, signed := [Uint(2), ByteString(s.capability)], [Uint(3), ByteString(s.signature)];
    assert SignedTokens(s) == open + (versioned + (keyed + (covered + signed)));
    hide SignedTokens;
    MapBytes(4);
    UintBytes(0, 0);
    StringBytes(1, BYTES, s.keyId);
    StringBytes(2, BYTES, s.capability);
    StringBytes(3, BYTES, s.signature);
    FiveParts(open, versioned, keyed, covered, signed);
    FixedHeads();
    ZeroHead();
  }

  function LengthBytes(length: Option<nat>): Bytes
    requires length.Some? ==> length.value < U64
  {
    match length case Some(n) => HeadBytes(0, n) case None => [0xf6]
  }

  function RangeBytes(r: Range): Bytes
    requires RangeOk(r)
  {
    [0x82] + (HeadBytes(0, r.offset) + HeadBytes(0, r.length))
  }

  function RangesBytes(ranges: seq<Range>): Bytes
    requires forall i :: 0 <= i < |ranges| ==> RangeOk(ranges[i])
  {
    if ranges == [] then [] else RangeBytes(ranges[0]) + RangesBytes(ranges[1..])
  }

  lemma RangeLayout(r: Range)
    requires RangeOk(r)
    ensures AllLegal(RangeToken(r)) && Flatten(RangeToken(r)) == RangeBytes(r)
  {
    FixedHeads();
    OneBytes(Array(2));
    OneBytes(Uint(r.offset));
    OneBytes(Uint(r.length));
    hide Flatten, AllLegal, HeadBytes;
    FlattenJoin([Uint(r.offset)], [Uint(r.length)]);
    FlattenJoin([Array(2)], [Uint(r.offset)] + [Uint(r.length)]);
    assert RangeToken(r) == [Array(2)] + ([Uint(r.offset)] + [Uint(r.length)]);
  }

  lemma {:induction false} RangesLayout(ranges: seq<Range>)
    requires forall i :: 0 <= i < |ranges| ==> RangeOk(ranges[i])
    ensures AllLegal(ManyTokens(RangeToken, ranges)) && Flatten(ManyTokens(RangeToken, ranges)) == RangesBytes(ranges)
  {
    hide RangeToken, RangeBytes, RangeOk;
    if ranges != [] {
      RangesLayout(ranges[1..]);
      RangeLayout(ranges[0]);
      hide Flatten;
      FlattenJoin(RangeToken(ranges[0]), ManyTokens(RangeToken, ranges[1..]));
    }
  }

  /** A scope: four fields under the keys 0 to 3, the ranges as pairs. */
  lemma ScopeLayout(s: Scope)
    requires Typed(s) && ScopeOk(s)
    ensures ScopeBytes(s)
         == [0xa4] + (([0x00] + HeadBytes(0, s.suite)) + (([0x01] + ([0x58, 0x20] + s.root))
            + (([0x02] + LengthBytes(s.length)) + (([0x03] + HeadBytes(4, |s.ranges|)) + RangesBytes(s.ranges)))))
  {
    hide Flatten, AllLegal, HeadBytes, ManyTokens, RangesBytes, Separated, Within;
    var open, suited, rooted := [Map(4)], [Uint(0), Uint(s.suite)], [Uint(1), ByteString(s.root)];
    var sized, counted := [Uint(2), LengthToken(s.length)], [Uint(3), Array(|s.ranges|)];
    var ranged := ManyTokens(RangeToken, s.ranges);
    assert ScopeHead(s.suite, s.root, s.length) == open + (suited + (rooted + sized));
    hide ScopeHead;
    ScopeFits(s);
    MapBytes(4);
    UintBytes(0, s.suite);
    StringBytes(1, BYTES, s.root);
    LengthLayout(s.length);
    CountLayout(|s.ranges|);
    RangesLayout(s.ranges);
    FlattenJoin(counted, ranged);
    FiveParts(open, suited, rooted, sized, counted + ranged);
    Regroup(open, suited, rooted, sized, counted + ranged);
    FixedHeads();
  }

  lemma LengthLayout(length: Option<nat>)
    requires length.Some? ==> length.value < U64
    ensures AllLegal([Uint(2), LengthToken(length)]) && Flatten([Uint(2), LengthToken(length)]) == [0x02] + LengthBytes(length)
  {
    hide Flatten, AllLegal, HeadBytes;
    FieldBytes(2, LengthToken(length));
  }

  lemma CountLayout(n: nat)
    requires n < U64
    ensures AllLegal([Uint(3), Array(n)]) && Flatten([Uint(3), Array(n)]) == [0x03] + HeadBytes(4, n)
  {
    hide Flatten, AllLegal, HeadBytes;
    FieldBytes(3, Array(n));
  }

  lemma Regroup(a: seq<Token>, b: seq<Token>, c: seq<Token>, d: seq<Token>, e: seq<Token>)
    ensures (a + (b + (c + d))) + e == a + (b + (c + (d + e)))
  {
    assert (c + d) + e == c + (d + e);
    assert (b + (c + d)) + e == b + ((c + d) + e);
  }

  // ----- capabilities

  function OperationsBytes(ops: seq<nat>): Bytes
    requires forall i :: 0 <= i < |ops| ==> ops[i] < U64
  {
    if ops == [] then [] else HeadBytes(0, ops[0]) + OperationsBytes(ops[1..])
  }

  function LimitsBytes(limits: seq<Limit>): Bytes
    requires forall i :: 0 <= i < |limits| ==> limits[i].id < U16 && limits[i].value < U64
  {
    if limits == [] then [] else
    (HeadBytes(0, limits[0].id) + HeadBytes(0, limits[0].value)) + LimitsBytes(limits[1..])
  }

  lemma {:induction false} OperationsLayout(ops: seq<nat>)
    requires forall i :: 0 <= i < |ops| ==> ops[i] < U64
    ensures AllLegal(ManyTokens(OperationToken, ops)) && Flatten(ManyTokens(OperationToken, ops)) == OperationsBytes(ops)
  {
    hide HeadBytes;
    if ops != [] {
      OperationsLayout(ops[1..]);
      OneBytes(Uint(ops[0]));
      hide Flatten;
      FlattenJoin(OperationToken(ops[0]), ManyTokens(OperationToken, ops[1..]));
    }
  }

  lemma {:induction false} LimitsLayout(limits: seq<Limit>)
    requires forall i :: 0 <= i < |limits| ==> limits[i].id < U16 && limits[i].value < U64
    ensures AllLegal(ManyTokens(LimitToken, limits)) && Flatten(ManyTokens(LimitToken, limits)) == LimitsBytes(limits)
  {
    hide HeadBytes;
    if limits != [] {
      var l := limits[0];
      LimitsLayout(limits[1..]);
      OneBytes(Uint(l.id));
      OneBytes(Uint(l.value));
      hide Flatten, LimitToken;
      FlattenJoin([Uint(l.id)], [Uint(l.value)]);
      assert LimitToken(l) == [Uint(l.id)] + [Uint(l.value)] by { TwoItems(l); }
      FlattenJoin(LimitToken(l), ManyTokens(LimitToken, limits[1..]));
    }
  }

  lemma TwoItems(l: Limit)
    ensures LimitToken(l) == [Uint(l.id)] + [Uint(l.value)]
  {
  }

  function PartiesBytes(issuer: Bytes, audience: Bytes, holderKey: Bytes): Bytes
    requires |issuer| < U64 && |audience| < U64
  {
    [0xab] + ([0x00, 0x00] + (([0x01] + (HeadBytes(3, |issuer|) + issuer))
    + (([0x02] + (HeadBytes(3, |audience|) + audience)) + ([0x03] + ([0x58, 0x20] + holderKey)))))
  }

  function TermsBytes(notBefore: nat, expiry: nat, tokenId: Bytes, delegation: nat): Bytes
    requires notBefore < U64 && expiry < U64 && delegation < U64
  {
    ([0x07] + HeadBytes(0, notBefore)) + (([0x08] + HeadBytes(0, expiry)) + (([0x09] + ([0x50] + tokenId))
    + ([0x0a] + HeadBytes(0, delegation))))
  }

  lemma PartiesLayout(issuer: Bytes, audience: Bytes, holderKey: Bytes)
    requires |issuer| < U64 && |audience| < U64 && |holderKey| == 32
    ensures AllLegal(PartiesTokens(issuer, audience, holderKey))
    ensures Flatten(PartiesTokens(issuer, audience, holderKey)) == PartiesBytes(issuer, audience, holderKey)
  {
    hide Flatten, AllLegal, HeadBytes;
    var open, versioned, issued := [Map(11)], [Uint(0), Uint(0)], [Uint(1), TextString(issuer)];
    var heard, held := [Uint(2), TextString(audience)], [Uint(3), ByteString(holderKey)];
    assert PartiesTokens(issuer, audience, holderKey) == open + (versioned + (issued + (heard + held)));
    hide PartiesTokens;
    MapBytes(11);
    UintBytes(0, 0);
    StringBytes(1, TEXT, issuer);
    StringBytes(2, TEXT, audience);
    StringBytes(3, BYTES, holderKey);
    FiveParts(open, versioned, issued, heard, held);
    FixedHeads();
    ZeroHead();
  }

  lemma TermsLayout(notBefore: nat, expiry: nat, tokenId: Bytes, delegation: nat)
    requires notBefore < U64 && expiry < U64 && |tokenId| == 16 && delegation < U64
    ensures AllLegal(TermsTokens(notBefore, expiry, tokenId, delegation))
    ensures Flatten(TermsTokens(notBefore, expiry, tokenId, delegation)) == TermsBytes(notBefore, expiry, tokenId, delegation)
  {
    hide Flatten, AllLegal, HeadBytes;
    var from, until := [Uint(7), Uint(notBefore)], [Uint(8), Uint(expiry)];
    var named, delegated := [Uint(9), ByteString(tokenId)], [Uint(10), Uint(delegation)];
    assert TermsTokens(notBefore, expiry, tokenId, delegation) == from + (until + (named + delegated));
    hide TermsTokens;
    UintBytes(7, notBefore);
    UintBytes(8, expiry);
    StringBytes(9, BYTES, tokenId);
    UintBytes(10, delegation);
    FlattenJoin(named, delegated);
    FlattenJoin(until, named + delegated);
    FlattenJoin(from, until + (named + delegated));
    FixedHeads();
  }

  /** A capability: eleven fields under the keys 0 to 10, in that order. */
  lemma CapabilityLayout(c: Capability, u: Unicode)
    requires TypedCapability(c, u) && CapabilityOk(c, u)
    ensures CanonicalForm(c, u)
         == PartiesBytes(c.issuer, c.audience, c.holderKey)
            + ((([0x04] + HeadBytes(4, |c.operations|)) + OperationsBytes(c.operations))
            + (([0x05] + ScopeBytes(c.scope))
            + ((([0x06] + HeadBytes(5, |c.limits|)) + LimitsBytes(c.limits))
            + TermsBytes(c.notBefore, c.expiry, c.tokenId, c.delegation))))
  {
    var a, b := PartiesTokens(c.issuer, c.audience, c.holderKey), OperationsPart(c.operations);
    var d, e := ScopePart(c.scope), LimitsPart(c.limits);
    var f := TermsTokens(c.notBefore, c.expiry, c.tokenId, c.delegation);
    PartiesLayout(c.issuer, c.audience, c.holderKey);
    PartsLayout(c, u);
    TermsLayout(c.notBefore, c.expiry, c.tokenId, c.delegation);
    CapabilityFits(c, u);
    hide Flatten, AllLegal, HeadBytes, PartiesTokens, TermsTokens, OperationsPart, ScopePart, LimitsPart, ScopeBytes,
      OperationsBytes, LimitsBytes, PartiesBytes, TermsBytes, TypedCapability, CapabilityOk;
    FiveParts(a, b, d, e, f);
  }

  lemma PartsLayout(c: Capability, u: Unicode)
    requires TypedCapability(c, u) && CapabilityOk(c, u)
    ensures AllLegal(OperationsPart(c.operations)) && AllLegal(ScopePart(c.scope)) && AllLegal(LimitsPart(c.limits))
    ensures Flatten(OperationsPart(c.operations)) == ([0x04] + HeadBytes(4, |c.operations|)) + OperationsBytes(c.operations)
    ensures Flatten(ScopePart(c.scope)) == [0x05] + ScopeBytes(c.scope)
    ensures Flatten(LimitsPart(c.limits)) == ([0x06] + HeadBytes(5, |c.limits|)) + LimitsBytes(c.limits)
  {
    FieldBytes(4, Array(|c.operations|));
    OperationsLayout(c.operations);
    OneBytes(Uint(5));
    assert TokenBytes(Uint(5)) == [0x05];
    ScopeFits(c.scope);
    FieldBytes(6, Map(|c.limits|));
    LimitsLayout(c.limits);
    hide Flatten, AllLegal, HeadBytes, ManyTokens, OperationsBytes, LimitsBytes, ScopeTokens;
    FlattenJoin([Uint(4), Array(|c.operations|)], ManyTokens(OperationToken, c.operations));
    FlattenJoin([Uint(5)], ScopeTokens(c.scope));
    FlattenJoin([Uint(6), Map(|c.limits|)], ManyTokens(LimitToken, c.limits));
  }
}
