/** Capabilities and their signed envelopes as items: what is read off the front
    of some bytes, and why it is refused. */
module CapabilityGrammar {
  import opened Cbor
  import opened Scopes
  import opened Grammar

  const MAX_IDENTITY: nat := 128
  const MAX_OPERATIONS := 16
  const MAX_LIMITS := 16
  const MAX_KEY_ID := 64
  const MAX_SIGNED := 49152

  /** What is asked of text that this model does not look into. */
  datatype Unicode = Unicode(valid: Bytes -> bool, control: Bytes -> bool)

  datatype Limit = Limit(id: nat, value: nat)

  /** Identities are held as the bytes of their text. */
  datatype Capability = Capability(
    issuer: Bytes, audience: Bytes, holderKey: Bytes, operations: seq<nat>, scope: Scope, limits: seq<Limit>,
    notBefore: nat, expiry: nat, tokenId: Bytes, delegation: nat)

  /** A capability with the issuer's signature over its exact bytes. */
  datatype SignedCapability = SignedCapability(keyId: Bytes, capability: Bytes, signature: Bytes)

  // ----- the items of a capability

  ghost function OperationToken(op: nat): seq<Token> {
    [Uint(op)]
  }

  ghost function LimitToken(l: Limit): seq<Token> {
    [Uint(l.id), Uint(l.value)]
  }

  /** Who issued it, to whom, and to which key. */
  ghost function PartiesTokens(issuer: Bytes, audience: Bytes, holderKey: Bytes): seq<Token> {
    [Map(11), Uint(0), Uint(0), Uint(1), TextString(issuer), Uint(2), TextString(audience),
     Uint(3), ByteString(holderKey)]
  }

  /** When it holds, and under which name. */
  ghost function TermsTokens(notBefore: nat, expiry: nat, tokenId: Bytes, delegation: nat): seq<Token> {
    [Uint(7), Uint(notBefore), Uint(8), Uint(expiry), Uint(9), ByteString(tokenId), Uint(10), Uint(delegation)]
  }

  ghost function OperationsPart(ops: seq<nat>): seq<Token> {
    [Uint(4), Array(|ops|)] + ManyTokens(OperationToken, ops)
  }

  ghost function ScopePart(scope: Scope): seq<Token> {
    [Uint(5)] + ScopeTokens(scope)
  }

  ghost function LimitsPart(limits: seq<Limit>): seq<Token> {
    [Uint(6), Map(|limits|)] + ManyTokens(LimitToken, limits)
  }

  /** A capability's canonical items. */
  ghost function CapabilityTokens(c: Capability): seq<Token> {
    PartiesTokens(c.issuer, c.audience, c.holderKey)
    + (OperationsPart(c.operations) + (ScopePart(c.scope) + (LimitsPart(c.limits)
    + TermsTokens(c.notBefore, c.expiry, c.tokenId, c.delegation))))
  }

  // ----- reading them

  ghost function GetOperation(b: Bytes): Outcome<(nat, Bytes)> {
    GetItem(b, UNSIGNED)
  }

  ghost function GetLimit(b: Bytes): Outcome<(Limit, Bytes)> {
    var id :- GetItem(b, UNSIGNED);
    if id.0 >= U16 then Refused(InvalidLimits) else
    var value :- GetItem(id.1, UNSIGNED);
    Done((Limit(id.0, value.0), value.1))
  }

  ghost function GetParties(b: Bytes, u: Unicode): Outcome<((Bytes, Bytes, Bytes), Bytes)> {
    var fields :- GetRequired(b, MAP, 11);
    var version :- GetUintField(fields.1, 0);
    if version.0 != 0 then Refused(UnsupportedVersion(version.0)) else
    var issuer :- GetTextField(version.1, 1, MAX_IDENTITY, u.valid);
    var audience :- GetTextField(issuer.1, 2, MAX_IDENTITY, u.valid);
    var holderKey :- GetFixedField(audience.1, 3, 32);
    Done(((issuer.0, audience.0, holderKey.0), holderKey.1))
  }

  ghost function GetOperations(b: Bytes): Outcome<(seq<nat>, Bytes)> {
    var count :- GetCountField(b, 4, ARRAY, MAX_OPERATIONS);
    GetMany(GetOperation, count.1, count.0)
  }

  ghost function GetScopeField(b: Bytes): Outcome<(Scope, Bytes)> {
    var k :- GetKey(b, 5);
    GetScope(k.1)
  }

  ghost function GetLimits(b: Bytes): Outcome<(seq<Limit>, Bytes)> {
    var count :- GetCountField(b, 6, MAP, MAX_LIMITS);
    GetMany(GetLimit, count.1, count.0)
  }

  ghost function GetTerms(b: Bytes): Outcome<((nat, nat, Bytes, nat), Bytes)> {
    var notBefore :- GetUintField(b, 7);
    var expiry :- GetUintField(notBefore.1, 8);
    var tokenId :- GetFixedField(expiry.1, 9, 16);
    var delegation :- GetUintField(tokenId.1, 10);
    Done(((notBefore.0, expiry.0, tokenId.0, delegation.0), delegation.1))
  }

  ghost function GetCapability(b: Bytes, u: Unicode): Outcome<(Capability, Bytes)> {
    var parties :- GetParties(b, u);
    var operations :- GetOperations(parties.1);
    var scope :- GetScopeField(operations.1);
    var limits :- GetLimits(scope.1);
    var terms :- GetTerms(limits.1);
    Done((Capability(parties.0.0, parties.0.1, parties.0.2, operations.0, scope.0, limits.0,
                     terms.0.0, terms.0.1, terms.0.2, terms.0.3), terms.1))
  }

  // ----- exactly which values they give

  predicate OperationFits(op: nat) {
    op < U64
  }

  predicate LimitFits(l: Limit) {
    l.id < U16 && l.value < U64
  }

  ghost predicate PartiesFit(issuer: Bytes, audience: Bytes, holderKey: Bytes, u: Unicode) {
    && |issuer| <= MAX_IDENTITY && |audience| <= MAX_IDENTITY && u.valid(issuer) && u.valid(audience)
    && |holderKey| == 32
  }

  ghost predicate TermsFit(notBefore: nat, expiry: nat, tokenId: Bytes, delegation: nat) {
    notBefore < U64 && expiry < U64 && |tokenId| == 16 && delegation < U64
  }

  /** What the reader alone asks of a capability. */
  ghost predicate Readable(c: Capability, u: Unicode) {
    && PartiesFit(c.issuer, c.audience, c.holderKey, u) && Typed(c.scope) && ScopeOk(c.scope)
    && |c.operations| <= MAX_OPERATIONS && AllOk(OperationFits, c.operations)
    && |c.limits| <= MAX_LIMITS && AllOk(LimitFits, c.limits)
    && TermsFit(c.notBefore, c.expiry, c.tokenId, c.delegation)
  }

  lemma LimitGot(b: Bytes, l: Limit)
    ensures Exact(GetLimit(b), l, LimitFits(l), b, LimitToken(l))
  {
    hide Begins, Tail, GetItem;
    assert LimitToken(l) == [Uint(l.id)] + [Uint(l.value)];
    BeginsJoin(b, [Uint(l.id)], [Uint(l.value)]);
    ItemGot(b, UNSIGNED, l.id);
    ItemGot(Tail(b, [Uint(l.id)]), UNSIGNED, l.value);
  }

  /** A count and then so many values, for any kind of value. */
  lemma CountedGot<T(!new)>(get: Bytes -> Outcome<(T, Bytes)>, ok: T -> bool, tokens: T -> seq<Token>,
                            b: Bytes, key: nat, major: nat, maximum: nat, values: seq<T>)
    requires major < 7 && forall b, value :: Exact(get(b), value, ok(value), b, tokens(value))
    ensures var count := GetCountField(b, key, major, maximum);
            Exact(if count.Refused? then Refused(count.refusal) else GetMany(get, count.value.1, count.value.0), values,
                  |values| <= maximum && AllOk(ok, values), b,
                  [Uint(key), Item(major, |values|)] + ManyTokens(tokens, values))
  {
    hide Begins, Tail, GetCountField, GetMany, ManyTokens, AllOk;
    var head := [Uint(key), Item(major, |values|)];
    BeginsJoin(b, head, ManyTokens(tokens, values));
    CountFieldGot(b, key, major, maximum, |values|);
    ManyGot(get, ok, tokens, Tail(b, head), |values|, values);
    var count := GetCountField(b, key, major, maximum);
    if count.Done? { ManyGot(get, ok, tokens, count.value.1, count.value.0, values); }
  }

  lemma OperationsGot(b: Bytes, ops: seq<nat>)
    ensures Exact(GetOperations(b), ops, |ops| <= MAX_OPERATIONS && AllOk(OperationFits, ops), b, OperationsPart(ops))
  {
    hide Exact, OperationFits, OperationToken, GetOperation, GetMany, ManyTokens, AllOk, GetCountField;
    forall b, op: nat ensures Exact(GetOperation(b), op, OperationFits(op), b, OperationToken(op)) { OperationGot(b, op); }
    CountedGot(GetOperation, OperationFits, OperationToken, b, 4, ARRAY, MAX_OPERATIONS, ops);
  }

  lemma OperationGot(b: Bytes, op: nat)
    ensures Exact(GetOperation(b), op, OperationFits(op), b, OperationToken(op))
  {
    hide Exact, GetItem;
    ItemGot(b, UNSIGNED, op);
  }

  lemma LimitsGot(b: Bytes, limits: seq<Limit>)
    ensures Exact(GetLimits(b), limits, |limits| <= MAX_LIMITS && AllOk(LimitFits, limits), b, LimitsPart(limits))
  {
    hide Exact, LimitFits, LimitToken, GetLimit, GetMany, ManyTokens, AllOk, GetCountField;
    forall b, l ensures Exact(GetLimit(b), l, LimitFits(l), b, LimitToken(l)) { LimitGot(b, l); }
    CountedGot(GetLimit, LimitFits, LimitToken, b, 6, MAP, MAX_LIMITS, limits);
  }

  lemma ScopeFieldGot(b: Bytes, s: Scope)
    ensures Exact(GetScopeField(b), s, Typed(s) && ScopeOk(s), b, ScopePart(s))
  {
    hide Begins, Tail, GetRequired, GetScope, ScopeTokens, Typed, ScopeOk;
    RequiredGot(b, UNSIGNED, 5);
    BeginsJoin(b, [Uint(5)], ScopeTokens(s));
    ScopeGot(Tail(b, [Uint(5)]), s);
  }

  lemma PartiesGot(b: Bytes, u: Unicode, issuer: Bytes, audience: Bytes, holderKey: Bytes)
    ensures Exact(GetParties(b, u), (issuer, audience, holderKey), PartiesFit(issuer, audience, holderKey, u), b,
                  PartiesTokens(issuer, audience, holderKey))
  {
    hide Begins, Tail, GetRequired, GetUintField, GetTextField, GetFixedField;
    var open, versioned, issued := [Map(11)], [Uint(0), Uint(0)], [Uint(1), TextString(issuer)];
    var heard, held := [Uint(2), TextString(audience)], [Uint(3), ByteString(holderKey)];
    var b1 := Tail(b, open);
    var b2 := Tail(b1, versioned);
    var b3 := Tail(b2, issued);
    var b4 := Tail(b3, heard);
    assert PartiesTokens(issuer, audience, holderKey) == open + (versioned + (issued + (heard + held)));
    BeginsJoin(b, open, versioned + (issued + (heard + held)));
    BeginsJoin(b1, versioned, issued + (heard + held));
    BeginsJoin(b2, issued, heard + held);
    BeginsJoin(b3, heard, held);
    RequiredGot(b, MAP, 11);
    UintFieldGot(b1, 0, 0);
    TextFieldGot(b2, 1, MAX_IDENTITY, u.valid, issuer);
    TextFieldGot(b3, 2, MAX_IDENTITY, u.valid, audience);
    FixedFieldGot(b4, 3, 32, holderKey);
  }

  lemma TermsGot(b: Bytes, notBefore: nat, expiry: nat, tokenId: Bytes, delegation: nat)
    ensures Exact(GetTerms(b), (notBefore, expiry, tokenId, delegation), TermsFit(notBefore, expiry, tokenId, delegation), b,
                  TermsTokens(notBefore, expiry, tokenId, delegation))
  {
    hide Begins, Tail, GetUintField, GetFixedField;
    var from, until := [Uint(7), Uint(notBefore)], [Uint(8), Uint(expiry)];
    var named, delegated := [Uint(9), ByteString(tokenId)], [Uint(10), Uint(delegation)];
    var b1 := Tail(b, from);
    var b2 := Tail(b1, until);
    var b3 := Tail(b2, named);
    assert TermsTokens(notBefore, expiry, tokenId, delegation) == from + (until + (named + delegated));
    BeginsJoin(b, from, until + (named + delegated));
    BeginsJoin(b1, until, named + delegated);
    BeginsJoin(b2, named, delegated);
    UintFieldGot(b, 7, notBefore);
    UintFieldGot(b1, 8, expiry);
    FixedFieldGot(b2, 9, 16, tokenId);
    UintFieldGot(b3, 10, delegation);
  }

  /** A capability is read exactly when it is readable and its canonical items are in front. */
  lemma CapabilityGot(b: Bytes, u: Unicode, c: Capability)
    ensures Exact(GetCapability(b, u), c, Readable(c, u), b, CapabilityTokens(c))
  {
    hide Begins, Tail, GetParties, GetOperations, GetScopeField, GetLimits, GetTerms, PartiesTokens, OperationsPart,
      ScopePart, LimitsPart, TermsTokens, Typed, ScopeOk, PartiesFit, TermsFit, AllOk;
    var parties, operations, scope := PartiesTokens(c.issuer, c.audience, c.holderKey), OperationsPart(c.operations), ScopePart(c.scope);
    var limits, terms := LimitsPart(c.limits), TermsTokens(c.notBefore, c.expiry, c.tokenId, c.delegation);
    var b1 := Tail(b, parties);
    var b2 := Tail(b1, operations);
    var b3 := Tail(b2, scope);
    var b4 := Tail(b3, limits);
    BeginsJoin(b, parties, operations + (scope + (limits + terms)));
    BeginsJoin(b1, operations, scope + (limits + terms));
    BeginsJoin(b2, scope, limits + terms);
    BeginsJoin(b3, limits, terms);
    PartiesGot(b, u, c.issuer, c.audience, c.holderKey);
    OperationsGot(b1, c.operations);
    ScopeFieldGot(b2, c.scope);
    LimitsGot(b3, c.limits);
    TermsGot(b4, c.notBefore, c.expiry, c.tokenId, c.delegation);
    if GetCapability(b, u).Done? && GetCapability(b, u).value.0 == c {
      assert GetParties(b, u).value.0 == (c.issuer, c.audience, c.holderKey);
      assert GetTerms(b4).value.0 == (c.notBefore, c.expiry, c.tokenId, c.delegation);
    }
  }

  // ----- the signed envelope

  predicate KeyIdOk(keyId: Bytes) {
    1 <= |keyId| <= MAX_KEY_ID
  }

  ghost function SignedTokens(s: SignedCapability): seq<Token> {
    [Map(4), Uint(0), Uint(0), Uint(1), ByteString(s.keyId), Uint(2), ByteString(s.capability),
     Uint(3), ByteString(s.signature)]
  }

  ghost function GetSigned(b: Bytes): Outcome<(SignedCapability, Bytes)> {
    var fields :- GetRequired(b, MAP, 4);
    var version :- GetUintField(fields.1, 0);
    if version.0 != 0 then Refused(UnsupportedVersion(version.0)) else
    var keyId :- GetBytesField(version.1, 1, MAX_KEY_ID);
    if !KeyIdOk(keyId.0) then Refused(InvalidKeyId) else
    var capability :- GetBytesField(keyId.1, 2, MAX_SIGNED);
    var signature :- GetFixedField(capability.1, 3, 64);
    Done((SignedCapability(keyId.0, capability.0, signature.0), signature.1))
  }

  /** The whole input as one envelope. */
  ghost function SignedResult(input: Bytes): Outcome<SignedCapability> {
    if |input| > MAX_SIGNED then Refused(TooBig) else
    var envelope :- GetSigned(input);
    Whole(envelope.0, envelope.1)
  }

  lemma SignedGot(b: Bytes, s: SignedCapability)
    ensures Exact(GetSigned(b), s, KeyIdOk(s.keyId) && |s.capability| <= MAX_SIGNED && |s.signature| == 64, b, SignedTokens(s))
  {
    hide Begins, Tail, GetRequired, GetUintField, GetBytesField, GetFixedField;
    var open, versioned, keyed := [Map(4)], [Uint(0), Uint(0)], [Uint(1), ByteString(s.keyId)];
    var covered, signed := [Uint(2), ByteString(s.capability)], [Uint(3), ByteString(s.signature)];
    var b1 := Tail(b, open);
    var b2 := Tail(b1, versioned);
    var b3 := Tail(b2, keyed);
    var b4 := Tail(b3, covered);
    assert SignedTokens(s) == open + (versioned + (keyed + (covered + signed)));
    BeginsJoin(b, open, versioned + (keyed + (covered + signed)));
    BeginsJoin(b1, versioned, keyed + (covered + signed));
    BeginsJoin(b2, keyed, covered + signed);
    BeginsJoin(b3, covered, signed);
    RequiredGot(b, MAP, 4);
    UintFieldGot(b1, 0, 0);
    BytesFieldGot(b2, 1, MAX_KEY_ID, s.keyId);
    BytesFieldGot(b3, 2, MAX_SIGNED, s.capability);
    FixedFieldGot(b4, 3, 64, s.signature);
  }
}
