/** Capabilities: the rules their claims obey, their canonical bytes, and the
    signed envelope they travel in. */
module Capabilities {
  import opened Cbor
  import opened Scopes
  import opened Grammar
  import opened CapabilityGrammar
  import opened ScopeCodec

  const NO_FURTHER_DELEGATION := 0

  /** What the field types alone say of a capability. */
  ghost predicate TypedCapability(c: Capability, u: Unicode) {
    && u.valid(c.issuer) && u.valid(c.audience) && |c.issuer| < U64 && |c.audience| < U64
    && |c.holderKey| == 32 && |c.tokenId| == 16 && Typed(c.scope)
    && c.notBefore < U64 && c.expiry < U64 && c.delegation < U64
    && |c.operations| < U64 && (forall i :: 0 <= i < |c.operations| ==> c.operations[i] < U64)
    && |c.limits| < U64 && (forall i :: 0 <= i < |c.limits| ==> c.limits[i].id < U16 && c.limits[i].value < U64)
  }

  // ----- the rules

  predicate IdentityOk(value: Bytes, u: Unicode) {
    1 <= |value| <= MAX_IDENTITY && !u.control(value)
  }

  /** One to sixteen distinct operations, ascending, none of them the reserved zero. */
  ghost predicate OperationsOk(ops: seq<nat>) {
    && 1 <= |ops| <= MAX_OPERATIONS
    && (forall i :: 0 <= i < |ops| ==> 1 <= ops[i] <= 0xffff)
    && (forall i, j :: 0 <= i < j < |ops| ==> ops[i] < ops[j])
  }

  ghost predicate LimitsOk(limits: seq<Limit>) {
    && |limits| <= MAX_LIMITS
    && (forall i :: 0 <= i < |limits| ==> 1 <= limits[i].id)
    && (forall i, j :: 0 <= i < j < |limits| ==> limits[i].id < limits[j].id)
  }

  ghost predicate CapabilityOk(c: Capability, u: Unicode) {
    && IdentityOk(c.issuer, u) && IdentityOk(c.audience, u)
    && OperationsOk(c.operations) && LimitsOk(c.limits) && ScopeOk(c.scope)
    && c.notBefore < c.expiry && c.delegation == NO_FURTHER_DELEGATION
  }

  /** Neighbours ascend, which is what the code compares. */
  predicate Ascends(values: seq<nat>) {
    forall i :: 0 <= i < |values| - 1 ==> values[i] < values[i + 1]
  }

  lemma {:induction false} AscendsAll(values: seq<nat>, i: nat, j: nat)
    requires Ascends(values) && i < j < |values|
    ensures values[i] < values[j]
    decreases j
  {
    if i < j - 1 { AscendsAll(values, i, j - 1); }
  }

  method ValidateOperations(ops: seq<nat>) returns (r: Outcome<()>)
    ensures r == if OperationsOk(ops) then Done(()) else Refused(InvalidOperations)
  {
    if !(1 <= |ops| <= MAX_OPERATIONS) { return Refused(InvalidOperations); }
    if ops[0] == 0 || !Ascends(ops) || exists i :: 0 <= i < |ops| && ops[i] > 0xffff {
      return Refused(InvalidOperations);
    }
    forall i, j | 0 <= i < j < |ops| ensures ops[i] < ops[j] { AscendsAll(ops, i, j); }
    forall i | 0 <= i < |ops| ensures 1 <= ops[i] { if i > 0 { AscendsAll(ops, 0, i); } }
    return Done(());
  }

  method ValidateLimits(limits: seq<Limit>) returns (r: Outcome<()>)
    ensures r == if |limits| > MAX_LIMITS then Refused(TooBig)
                 else if LimitsOk(limits) then Done(()) else Refused(InvalidLimits)
  {
    if |limits| > MAX_LIMITS { return Refused(TooBig); }
    var ids := seq(|limits|, i requires 0 <= i < |limits| => limits[i].id);
    if (limits != [] && limits[0].id == 0) || !Ascends(ids) {
      return Refused(InvalidLimits);
    }
    forall i, j | 0 <= i < j < |limits| ensures limits[i].id < limits[j].id { AscendsAll(ids, i, j); }
    forall i | 0 <= i < |limits| ensures 1 <= limits[i].id { if i > 0 { AscendsAll(ids, 0, i); } }
    return Done(());
  }

  /** What is wrong with a capability, in the order it is looked for. */
  ghost function Verdict(c: Capability, u: Unicode): (r: Outcome<()>)
    ensures r.Done? <==> CapabilityOk(c, u)
  {
    if !IdentityOk(c.issuer, u) || !IdentityOk(c.audience, u) then Refused(InvalidIdentity)
    else if !OperationsOk(c.operations) then Refused(InvalidOperations)
    else if |c.limits| > MAX_LIMITS then Refused(TooBig)
    else if !LimitsOk(c.limits) then Refused(InvalidLimits)
    else if ScopeVerdict(c.scope).Refused? then ScopeVerdict(c.scope)
    else if c.expiry <= c.notBefore then Refused(InvalidValidity)
    else if c.delegation != NO_FURTHER_DELEGATION then Refused(UnsupportedDelegation(c.delegation))
    else Done(())
  }

  /** Checks every rule the format fixes. */
  method ValidateCapability(c: Capability, u: Unicode) returns (r: Outcome<()>)
    requires Typed(c.scope)
    ensures r == Verdict(c, u)
  {
    hide OperationsOk, LimitsOk, ScopeVerdict, Typed, CapabilityOk;
    if !IdentityOk(c.issuer, u) || !IdentityOk(c.audience, u) { return Refused(InvalidIdentity); }
    var _ :- ValidateOperations(c.operations);
    var _ :- ValidateLimits(c.limits);
    var _ :- Validate(c.scope);
    if c.expiry <= c.notBefore { return Refused(InvalidValidity); }
    if c.delegation != NO_FURTHER_DELEGATION { return Refused(UnsupportedDelegation(c.delegation)); }
    return Done(());
  }

  // ----- reading

  method TextField(reader: Reader, key: nat, u: Unicode) returns (r: Outcome<Bytes>)
    requires reader.Valid()
    modifies reader
    ensures reader.Valid() && Agrees(r, old(GetTextField(reader.Rest(), key, MAX_IDENTITY, u.valid)), reader.Rest())
  {
    hide GetKey, After, HeadLen, ParseText;
    var _ :- ReadKey(reader, key);
    var read := reader.ReadText(MAX_IDENTITY, u.valid);
    r := Lift(read);
  }

  method ReadParties(reader: Reader, u: Unicode) returns (r: Outcome<(Bytes, Bytes, Bytes)>)
    requires reader.Valid()
    modifies reader
    ensures reader.Valid() && Agrees(r, old(GetParties(reader.Rest(), u)), reader.Rest())
  {
    hide GetRequired, GetUintField, GetTextField, GetFixedField;
    var _ :- Opening(reader, MAP, 11);
    var version :- UintField(reader, 0);
    if version != 0 { return Refused(UnsupportedVersion(version)); }
    var issuer :- TextField(reader, 1, u);
    var audience :- TextField(reader, 2, u);
    var holderKey :- FixedField(reader, 3, 32);
    return Done((issuer, audience, holderKey));
  }

  method ReadOperations(reader: Reader) returns (r: Outcome<seq<nat>>)
    requires reader.Valid()
    modifies reader
    ensures reader.Valid() && Agrees(r, old(GetOperations(reader.Rest())), reader.Rest())
  {
    hide GetItem, GetCountField, GetMany, Prepend;
    var count :- CountField(reader, 4, ARRAY, MAX_OPERATIONS);
    ghost var parsed := GetMany(GetOperation, reader.Rest(), count);
    NoneRead(parsed);
    var ops: seq<nat> := [];
    for i := 0 to count
      invariant reader.Valid() && parsed == Prepend(ops, GetMany(GetOperation, reader.Rest(), count - i))
    {
      OneMore(GetOperation, reader.Rest(), count - i, ops);
      var op :- ReadValue(reader);
      ops := ops + [op];
    }
    AllRead(GetOperation, reader.Rest(), ops);
    r := Done(ops);
  }

  method ScopeField(reader: Reader) returns (r: Outcome<Scope>)
    requires reader.Valid()
    modifies reader
    ensures reader.Valid() && Agrees(r, old(GetScopeField(reader.Rest())), reader.Rest())
  {
    hide GetKey, GetScope;
    var _ :- ReadKey(reader, 5);
    r := ReadScope(reader);
  }

  method ReadLimit(reader: Reader) returns (r: Outcome<Limit>)
    requires reader.Valid()
    modifies reader
    ensures reader.Valid() && Agrees(r, old(GetLimit(reader.Rest())), reader.Rest())
  {
    hide GetItem;
    var id :- ReadValue(reader);
    if id >= U16 { return Refused(InvalidLimits); }
    var value :- ReadValue(reader);
    return Done(Limit(id, value));
  }

  method ReadLimits(reader: Reader) returns (r: Outcome<seq<Limit>>)
    requires reader.Valid()
    modifies reader
    ensures reader.Valid() && Agrees(r, old(GetLimits(reader.Rest())), reader.Rest())
  {
    hide GetLimit, GetCountField, GetMany, Prepend;
    var count :- CountField(reader, 6, MAP, MAX_LIMITS);
    ghost var parsed := GetMany(GetLimit, reader.Rest(), count);
    NoneRead(parsed);
    var limits: seq<Limit> := [];
    for i := 0 to count
      invariant reader.Valid() && parsed == Prepend(limits, GetMany(GetLimit, reader.Rest(), count - i))
    {
      OneMore(GetLimit, reader.Rest(), count - i, limits);
      var limit :- ReadLimit(reader);
      limits := limits + [limit];
    }
    AllRead(GetLimit, reader.Rest(), limits);
    r := Done(limits);
  }

  method ReadTerms(reader: Reader) returns (r: Outcome<(nat, nat, Bytes, nat)>)
    requires reader.Valid()
    modifies reader
    ensures reader.Valid() && Agrees(r, old(GetTerms(reader.Rest())), reader.Rest())
  {
    hide GetUintField, GetFixedField;
    var notBefore :- UintField(reader, 7);
    var expiry :- UintField(reader, 8);
    var tokenId :- FixedField(reader, 9, 16);
    var delegation :- UintField(reader, 10);
    return Done((notBefore, expiry, tokenId, delegation));
  }

  method ReadCapability(reader: Reader, u: Unicode) returns (r: Outcome<Capability>)
    requires reader.Valid()
    modifies reader
    ensures reader.Valid() && Agrees(r, old(GetCapability(reader.Rest(), u)), reader.Rest())
  {
    hide GetParties, GetOperations, GetScopeField, GetLimits, GetTerms;
    var parties :- ReadParties(reader, u);
    var operations :- ReadOperations(reader);
    var scope :- ScopeField(reader);
    var limits :- ReadLimits(reader);
    var terms :- ReadTerms(reader);
    return Done(Capability(parties.0, parties.1, parties.2, operations, scope, limits,
                           terms.0, terms.1, terms.2, terms.3));
  }

  /** The whole input as one capability. */
  ghost function CapabilityResult(input: Bytes, u: Unicode): Outcome<Capability> {
    var found :- GetCapability(input, u);
    var capability :- Whole(found.0, found.1);
    var _ :- Verdict(capability, u);
    Done(capability)
  }

  method FromCanonicalBytes(input: Bytes, u: Unicode) returns (r: Outcome<Capability>)
    ensures r == CapabilityResult(input, u)
    ensures r.Done? ==>
              TypedCapability(r.value, u) && CapabilityOk(r.value, u) && input == CanonicalForm(r.value, u)
  {
    hide GetCapability, Verdict, TypedCapability, CapabilityOk, CanonicalForm, Typed;
    var reader := new Reader(input);
    var capability :- ReadCapability(reader, u);
    var end := reader.Finish();
    var _ :- Lift(end);
    ReadIsTyped(input, u);
    var _ :- ValidateCapability(capability, u);
    CapabilityExact(input, u, capability);
    return Done(capability);
  }

  lemma ReadIsTyped(input: Bytes, u: Unicode)
    ensures GetCapability(input, u).Done? ==> Typed(GetCapability(input, u).value.0.scope)
  {
    hide GetCapability, Begins, Tail, Typed, CapabilityTokens;
    if GetCapability(input, u).Done? { CapabilityGot(input, u, GetCapability(input, u).value.0); }
  }

  /** A capability is what some bytes decode to exactly when it is one the format
      allows and they are its canonical bytes. */
  lemma CapabilityExact(input: Bytes, u: Unicode, c: Capability)
    ensures CapabilityResult(input, u) == Done(c)
            <==> TypedCapability(c, u) && CapabilityOk(c, u) && input == CanonicalForm(c, u)
  {
    hide GetCapability, Begins, Tail, Readable, TypedCapability, CapabilityOk, CapabilityTokens, Flatten, AllLegal, Verdict;
    CapabilityGot(input, u, c);
    BeginsWhole(input, CapabilityTokens(c));
    if TypedCapability(c, u) && CapabilityOk(c, u) {
      CapabilityFits(c, u);
      IsReadable(c, u);
    }
    if Readable(c, u) { ReadableTyped(c, u); }
  }

  lemma IsReadable(c: Capability, u: Unicode)
    requires TypedCapability(c, u) && CapabilityOk(c, u)
    ensures Readable(c, u)
  {
    hide Typed, ScopeOk;
  }

  lemma ReadableTyped(c: Capability, u: Unicode)
    requires Readable(c, u)
    ensures TypedCapability(c, u)
  {
    hide Typed, ScopeOk;
  }

  lemma PartiesWhole(start: seq<Token>, issuer: Bytes, audience: Bytes, holderKey: Bytes)
    ensures start + [Map(11)] + [Uint(0), Uint(0)] + [Uint(1), TextString(issuer)] + [Uint(2), TextString(audience)]
            + [Uint(3), ByteString(holderKey)] == start + PartiesTokens(issuer, audience, holderKey)
  {
  }

  lemma TermsWhole(start: seq<Token>, notBefore: nat, expiry: nat, tokenId: Bytes, delegation: nat)
    ensures start + [Uint(7), Uint(notBefore)] + [Uint(8), Uint(expiry)] + [Uint(9), ByteString(tokenId)]
            + [Uint(10), Uint(delegation)] == start + TermsTokens(notBefore, expiry, tokenId, delegation)
  {
  }

  lemma FiveParts(start: seq<Token>, c: Capability)
    ensures start + PartiesTokens(c.issuer, c.audience, c.holderKey) + OperationsPart(c.operations)
            + ScopePart(c.scope) + LimitsPart(c.limits) + TermsTokens(c.notBefore, c.expiry, c.tokenId, c.delegation)
         == start + CapabilityTokens(c)
  {
    hide PartiesTokens, OperationsPart, ScopePart, LimitsPart, TermsTokens;
    RightNested(start, PartiesTokens(c.issuer, c.audience, c.holderKey), OperationsPart(c.operations),
                ScopePart(c.scope), LimitsPart(c.limits), TermsTokens(c.notBefore, c.expiry, c.tokenId, c.delegation));
  }

  lemma RightNested(a: seq<Token>, b: seq<Token>, c: seq<Token>, d: seq<Token>, e: seq<Token>, f: seq<Token>)
    ensures a + b + c + d + e + f == a + (b + (c + (d + (e + f))))
  {
    assert a + b + c + d + e + f == a + b + c + d + (e + f);
    assert a + b + c + d + (e + f) == a + b + c + (d + (e + f));
    assert a + b + c + (d + (e + f)) == a + b + (c + (d + (e + f)));
  }

  // ----- sizes

  lemma OperationSize(op: nat)
    requires op < U64
    ensures AllLegal(OperationToken(op)) && Size(OperationToken(op)) <= 9
  {
    hide Size, HeadLen;
    SizeOne(Uint(op));
    HeadSmall(op);
  }

  lemma LimitSize(l: Limit)
    requires LimitFits(l)
    ensures AllLegal(LimitToken(l)) && Size(LimitToken(l)) <= 12
  {
    hide Size, HeadLen;
    SizeTwo(Uint(l.id), Uint(l.value));
    HeadSmall(l.id);
    HeadSmall(l.value);
  }

  lemma PartiesSize(issuer: Bytes, audience: Bytes, holderKey: Bytes)
    requires |issuer| <= MAX_IDENTITY && |audience| <= MAX_IDENTITY && |holderKey| == 32
    ensures AllLegal(PartiesTokens(issuer, audience, holderKey)) && Size(PartiesTokens(issuer, audience, holderKey)) <= 301
  {
    hide Size;
    var a, b := [Map(11), Uint(0)], [Uint(0), Uint(1)];
    var c, d := [TextString(issuer), Uint(2)], [TextString(audience), Uint(3)];
    var e := [ByteString(holderKey)];
    assert PartiesTokens(issuer, audience, holderKey) == (a + b) + ((c + d) + e);
    SizeJoin(a + b, (c + d) + e);
    SizeJoin(a, b);
    SizeJoin(c + d, e);
    SizeJoin(c, d);
    SizeTwo(Map(11), Uint(0));
    SizeTwo(Uint(0), Uint(1));
    SizeTwo(TextString(issuer), Uint(2));
    SizeTwo(TextString(audience), Uint(3));
    SizeOne(ByteString(holderKey));
  }

  lemma TermsSize(notBefore: nat, expiry: nat, tokenId: Bytes, delegation: nat)
    requires notBefore < U64 && expiry < U64 && |tokenId| == 16 && delegation < U64
    ensures AllLegal(TermsTokens(notBefore, expiry, tokenId, delegation))
    ensures Size(TermsTokens(notBefore, expiry, tokenId, delegation)) <= 48
  {
    hide Size;
    var a, b := [Uint(7), Uint(notBefore)], [Uint(8), Uint(expiry)];
    var c, d := [Uint(9), ByteString(tokenId)], [Uint(10), Uint(delegation)];
    assert TermsTokens(notBefore, expiry, tokenId, delegation) == (a + b) + (c + d);
    SizeJoin(a + b, c + d);
    SizeJoin(a, b);
    SizeJoin(c, d);
    SizeTwo(Uint(7), Uint(notBefore));
    SizeTwo(Uint(8), Uint(expiry));
    SizeTwo(Uint(9), ByteString(tokenId));
    SizeTwo(Uint(10), Uint(delegation));
  }

  lemma OperationsFit(ops: seq<nat>)
    requires |ops| <= MAX_OPERATIONS && forall i :: 0 <= i < |ops| ==> ops[i] < U64
    ensures AllLegal(OperationsPart(ops)) && Size(OperationsPart(ops)) <= 146
  {
    hide Size, ManyTokens, OperationToken;
    forall i | 0 <= i < |ops| ensures AllLegal(OperationToken(ops[i])) && Size(OperationToken(ops[i])) <= 9 {
      OperationSize(ops[i]);
    }
    ManyFit(OperationToken, ops, 9);
    SizeJoin([Uint(4), Array(|ops|)], ManyTokens(OperationToken, ops));
    SizeTwo(Uint(4), Array(|ops|));
  }

  lemma LimitsFit(limits: seq<Limit>)
    requires |limits| <= MAX_LIMITS
    requires forall i :: 0 <= i < |limits| ==> limits[i].id < U16 && limits[i].value < U64
    ensures AllLegal(LimitsPart(limits)) && Size(LimitsPart(limits)) <= 194
  {
    hide Size, ManyTokens, LimitToken;
    forall i | 0 <= i < |limits| ensures AllLegal(LimitToken(limits[i])) && Size(LimitToken(limits[i])) <= 12 {
      LimitSize(limits[i]);
    }
    ManyFit(LimitToken, limits, 12);
    SizeJoin([Uint(6), Map(|limits|)], ManyTokens(LimitToken, limits));
    SizeTwo(Uint(6), Map(|limits|));
  }

  lemma ScopePartFits(s: Scope)
    requires Typed(s) && ScopeOk(s)
    ensures AllLegal(ScopePart(s)) && Size(ScopePart(s)) <= 1281
  {
    hide Size, ScopeTokens, ScopeOk, Typed, Flatten;
    ScopeFits(s);
    SizeJoin([Uint(5)], ScopeTokens(s));
    SizeOne(Uint(5));
  }

  const MAX_CAPABILITY := 2000

  /** Every capability the format allows has a canonical form, and a short one. */
  lemma CapabilityFits(c: Capability, u: Unicode)
    requires TypedCapability(c, u) && CapabilityOk(c, u)
    ensures AllLegal(CapabilityTokens(c)) && |Flatten(CapabilityTokens(c))| <= MAX_CAPABILITY
  {
    var a, b := PartiesTokens(c.issuer, c.audience, c.holderKey), OperationsPart(c.operations);
    var d, e := ScopePart(c.scope), LimitsPart(c.limits);
    var f := TermsTokens(c.notBefore, c.expiry, c.tokenId, c.delegation);
    PartiesSize(c.issuer, c.audience, c.holderKey);
    OperationsFit(c.operations);
    ScopePartFits(c.scope);
    LimitsFit(c.limits);
    TermsSize(c.notBefore, c.expiry, c.tokenId, c.delegation);
    hide PartiesTokens, OperationsPart, ScopePart, LimitsPart, TermsTokens, Size, AllLegal, Flatten;
    hide TypedCapability, CapabilityOk;
    SizeJoin(e, f);
    SizeJoin(d, e + f);
    SizeJoin(b, d + (e + f));
    SizeJoin(a, b + (d + (e + f)));
    LegalJoin(e, f);
    LegalJoin(d, e + f);
    LegalJoin(b, d + (e + f));
    LegalJoin(a, b + (d + (e + f)));
    SizeIsLength(CapabilityTokens(c));
  }

  /** The canonical bytes of a capability. */
  ghost function CanonicalForm(c: Capability, u: Unicode): Bytes
    requires TypedCapability(c, u) && CapabilityOk(c, u)
  {
    CapabilityFits(c, u);
    Flatten(CapabilityTokens(c))
  }

  // ----- writing

  /** Writes the bytes a signature covers. */
  method CanonicalBytes(c: Capability, u: Unicode) returns (r: Outcome<Bytes>)
    requires TypedCapability(c, u)
    ensures r.Done? <==> CapabilityOk(c, u)
    ensures r.Refused? ==> r.refusal == Verdict(c, u).refusal
    ensures r.Done? ==> r.value == CanonicalForm(c, u) && |r.value| <= MAX_CAPABILITY
  {
    TypedScope(c, u);
    var _ :- ValidateCapability(c, u);
    hide Flatten, AllLegal, PartiesTokens, OperationsPart, ScopePart, LimitsPart, TermsTokens, CapabilityTokens, Typed;
    CapabilityFits(c, u);
    var w := new Writer();
    WriteParties(w, c.issuer, c.audience, c.holderKey);
    WriteOperations(w, c.operations);
    WriteScopePart(w, c.scope);
    WriteLimits(w, c.limits);
    WriteTerms(w, c.notBefore, c.expiry, c.tokenId, c.delegation);
    FiveParts([], c);
    assert [] + CapabilityTokens(c) == CapabilityTokens(c);
    return Done(w.out);
  }

  lemma TypedScope(c: Capability, u: Unicode)
    requires TypedCapability(c, u)
    ensures Typed(c.scope)
  {
  }

  method WriteParties(w: Writer, issuer: Bytes, audience: Bytes, holderKey: Bytes)
    requires w.Valid() && |issuer| < U64 && |audience| < U64 && |holderKey| < U64
    modifies w
    ensures w.Valid() && w.written == old(w.written) + PartiesTokens(issuer, audience, holderKey)
  {
    hide Flatten, AllLegal, PartiesTokens;
    ghost var start := w.written;
    w.PutItem(MAP, 11);
    PutField(w, 0, 0);
    w.PutUint(1);
    w.PutPayload(TEXT, issuer);
    assert w.written == start + [Map(11)] + [Uint(0), Uint(0)] + [Uint(1), TextString(issuer)];
    w.PutUint(2);
    w.PutPayload(TEXT, audience);
    assert w.written == start + [Map(11)] + [Uint(0), Uint(0)] + [Uint(1), TextString(issuer)]
                        + [Uint(2), TextString(audience)];
    PutBytesField(w, 3, holderKey);
    PartiesWhole(start, issuer, audience, holderKey);
  }

  method PutField(w: Writer, key: nat, value: nat)
    requires w.Valid() && key < U64 && value < U64
    modifies w
    ensures w.Valid() && w.written == old(w.written) + [Uint(key), Uint(value)]
  {
    hide Flatten, AllLegal;
    w.PutUint(key);
    w.PutUint(value);
  }

  method PutBytesField(w: Writer, key: nat, bytes: Bytes)
    requires w.Valid() && key < U64 && |bytes| < U64
    modifies w
    ensures w.Valid() && w.written == old(w.written) + [Uint(key), ByteString(bytes)]
  {
    hide Flatten, AllLegal;
    w.PutUint(key);
    w.PutPayload(BYTES, bytes);
  }

  method WriteTerms(w: Writer, notBefore: nat, expiry: nat, tokenId: Bytes, delegation: nat)
    requires w.Valid() && notBefore < U64 && expiry < U64 && |tokenId| < U64 && delegation < U64
    modifies w
    ensures w.Valid() && w.written == old(w.written) + TermsTokens(notBefore, expiry, tokenId, delegation)
  {
    hide Flatten, AllLegal, TermsTokens;
    ghost var start := w.written;
    PutField(w, 7, notBefore);
    PutField(w, 8, expiry);
    PutBytesField(w, 9, tokenId);
    PutField(w, 10, delegation);
    TermsWhole(start, notBefore, expiry, tokenId, delegation);
  }

  method WriteOperations(w: Writer, ops: seq<nat>)
    requires w.Valid() && |ops| < U64 && forall i :: 0 <= i < |ops| ==> ops[i] < U64
    modifies w
    ensures w.Valid() && w.written == old(w.written) + OperationsPart(ops)
  {
    hide Flatten, AllLegal, ManyTokens;
    ghost var start := w.written;
    w.PutUint(4);
    w.PutItem(ARRAY, |ops|);
    NoTokens(OperationToken);
    assert ops[..0] == [];
    for i := 0 to |ops|
      invariant w.Valid() && w.written == start + ([Uint(4), Array(|ops|)] + ManyTokens(OperationToken, ops[..i]))
    {
      w.PutUint(ops[i]);
      ManyAppend(OperationToken, ops[..i], ops[i]);
      assert ops[..i + 1] == ops[..i] + [ops[i]];
    }
    assert ops[..|ops|] == ops;
  }

  method WriteScopePart(w: Writer, s: Scope)
    requires w.Valid() && Typed(s) && ScopeOk(s)
    modifies w
    ensures w.Valid() && w.written == old(w.written) + ScopePart(s)
  {
    hide Flatten, AllLegal, ScopeTokens, Typed, ScopeOk;
    w.PutUint(5);
    var _ := WriteScope(w, s);
  }

  method WriteLimits(w: Writer, limits: seq<Limit>)
    requires w.Valid() && |limits| < U64
    requires forall i :: 0 <= i < |limits| ==> limits[i].id < U16 && limits[i].value < U64
    modifies w
    ensures w.Valid() && w.written == old(w.written) + LimitsPart(limits)
  {
    hide Flatten, AllLegal, ManyTokens;
    ghost var start := w.written;
    w.PutUint(6);
    w.PutItem(MAP, |limits|);
    NoTokens(LimitToken);
    assert limits[..0] == [];
    for i := 0 to |limits|
      invariant w.Valid() && w.written == start + ([Uint(6), Map(|limits|)] + ManyTokens(LimitToken, limits[..i]))
    {
      PutField(w, limits[i].id, limits[i].value);
      ManyAppend(LimitToken, limits[..i], limits[i]);
      assert limits[..i + 1] == limits[..i] + [limits[i]];
    }
    assert limits[..|limits|] == limits;
  }

  /** Every valid capability decodes from its canonical bytes to itself. */
  method CapabilityRoundTrip(c: Capability, u: Unicode) returns (r: Outcome<Capability>)
    requires TypedCapability(c, u) && CapabilityOk(c, u)
    ensures r == Done(c)
  {
    hide TypedCapability, CapabilityOk, CanonicalForm, CapabilityResult;
    var bytes := CanonicalBytes(c, u);
    CapabilityExact(bytes.value, u, c);
    r := FromCanonicalBytes(bytes.value, u);
  }

  // ----- the signed envelope

  ghost predicate TypedSigned(s: SignedCapability) {
    |s.keyId| < U64 && |s.capability| < U64 && |s.signature| == 64
  }

  lemma SignedWhole(s: SignedCapability)
    ensures [] + [Map(4)] + [Uint(0), Uint(0)] + [Uint(1), ByteString(s.keyId)] + [Uint(2), ByteString(s.capability)]
            + [Uint(3), ByteString(s.signature)] == SignedTokens(s)
  {
  }

  /** The envelope's size: its two variable fields, their heads, and 72 bytes besides. */
  function EnvelopeSize(s: SignedCapability): nat {
    72 + HeadLen(|s.keyId|) + |s.keyId| + HeadLen(|s.capability|) + |s.capability|
  }

  lemma SignedSize(s: SignedCapability)
    requires TypedSigned(s)
    ensures AllLegal(SignedTokens(s))
    ensures |Flatten(SignedTokens(s))| == EnvelopeSize(s)
  {
    hide Size, Flatten;
    var a, b := [Map(4), Uint(0)], [Uint(0), Uint(1)];
    var c, d := [ByteString(s.keyId), Uint(2)], [ByteString(s.capability), Uint(3)];
    var e := [ByteString(s.signature)];
    assert SignedTokens(s) == (a + b) + ((c + d) + e);
    SizeJoin(a + b, (c + d) + e);
    SizeJoin(a, b);
    SizeJoin(c + d, e);
    SizeJoin(c, d);
    SizeTwo(Map(4), Uint(0));
    SizeTwo(Uint(0), Uint(1));
    SizeTwo(ByteString(s.keyId), Uint(2));
    SizeTwo(ByteString(s.capability), Uint(3));
    SizeOne(ByteString(s.signature));
    SizeIsLength(SignedTokens(s));
  }

  ghost function SignedForm(s: SignedCapability): Bytes
    requires TypedSigned(s)
  {
    SignedSize(s);
    Flatten(SignedTokens(s))
  }

  method Encode(s: SignedCapability) returns (r: Outcome<Bytes>)
    requires TypedSigned(s)
    ensures r == if 1 <= |s.keyId| <= 64 then Done(SignedForm(s)) else Refused(InvalidKeyId)
  {
    hide Flatten, AllLegal, SignedTokens;
    if !KeyIdOk(s.keyId) { return Refused(InvalidKeyId); }
    var w := new Writer();
    w.PutItem(MAP, 4);
    PutField(w, 0, 0);
    PutBytesField(w, 1, s.keyId);
    PutBytesField(w, 2, s.capability);
    PutBytesField(w, 3, s.signature);
    SignedWhole(s);
    SignedSize(s);
    return Done(w.out);
  }

  method BytesField(reader: Reader, key: nat, maximum: nat) returns (r: Outcome<Bytes>)
    requires reader.Valid()
    modifies reader
    ensures reader.Valid() && Agrees(r, old(GetBytesField(reader.Rest(), key, maximum)), reader.Rest())
  {
    hide GetKey, After, HeadLen, ParsePayload;
    var _ :- ReadKey(reader, key);
    var read := reader.ReadPayload(BYTES, maximum, false);
    r := Lift(read);
  }

  method ReadSigned(reader: Reader) returns (r: Outcome<SignedCapability>)
    requires reader.Valid()
    modifies reader
    ensures reader.Valid() && Agrees(r, old(GetSigned(reader.Rest())), reader.Rest())
  {
    hide GetRequired, GetUintField, GetBytesField, GetFixedField, KeyIdOk;
    var _ :- Opening(reader, MAP, 4);
    var version :- UintField(reader, 0);
    if version != 0 { return Refused(UnsupportedVersion(version)); }
    var keyId :- BytesField(reader, 1, MAX_KEY_ID);
    if !KeyIdOk(keyId) { return Refused(InvalidKeyId); }
    var capability :- BytesField(reader, 2, MAX_SIGNED);
    var signature :- FixedField(reader, 3, 64);
    return Done(SignedCapability(keyId, capability, signature));
  }

  method Decode(input: Bytes) returns (r: Outcome<SignedCapability>)
    ensures r == SignedResult(input)
    ensures r.Done? ==> TypedSigned(r.value) && KeyIdOk(r.value.keyId) && input == SignedForm(r.value)
  {
    hide GetSigned, KeyIdOk, TypedSigned, SignedForm;
    if |input| > MAX_SIGNED { return Refused(TooBig); }
    var reader := new Reader(input);
    var envelope :- ReadSigned(reader);
    var end := reader.Finish();
    var _ :- Lift(end);
    SignedExact(input, envelope);
    return Done(envelope);
  }

  /** An envelope is what some bytes decode to exactly when they are its
      canonical bytes, no longer than the bound. */
  lemma SignedExact(input: Bytes, s: SignedCapability)
    ensures SignedResult(input) == Done(s)
            <==> TypedSigned(s) && KeyIdOk(s.keyId) && input == SignedForm(s) && |input| <= MAX_SIGNED
  {
    hide GetSigned, SignedTokens, Flatten, AllLegal, Begins, Tail;
    SignedGot(input, s);
    BeginsWhole(input, SignedTokens(s));
    if TypedSigned(s) { SignedSize(s); }
  }

  /** An envelope with a key identifier within bounds always encodes, and comes
      back exactly when its size is within the decoder's bound. */
  method SignedRoundTrip(s: SignedCapability) returns (r: Outcome<SignedCapability>)
    requires TypedSigned(s) && KeyIdOk(s.keyId)
    ensures r == if EnvelopeSize(s) <= MAX_SIGNED then Done(s) else Refused(TooBig)
  {
    hide SignedForm, EnvelopeSize, SignedResult;
    FormSize(s);
    var bytes := Encode(s);
    SignedExact(bytes.value, s);
    TooLong(bytes.value);
    r := Decode(bytes.value);
  }

  lemma TooLong(input: Bytes)
    ensures |input| > MAX_SIGNED ==> SignedResult(input) == Refused(TooBig)
  {
  }

  lemma FormSize(s: SignedCapability)
    requires TypedSigned(s)
    ensures |SignedForm(s)| == EnvelopeSize(s)
  {
    hide Flatten, SignedTokens, EnvelopeSize;
    SignedSize(s);
  }

  /** The envelope of a canonical capability is always within the bound. */
  lemma CanonicalEnvelopeFits(c: Capability, u: Unicode, keyId: Bytes, signature: Bytes)
    requires TypedCapability(c, u) && CapabilityOk(c, u) && KeyIdOk(keyId) && |signature| == 64
    ensures |CanonicalForm(c, u)| < U64
    ensures |SignedForm(SignedCapability(keyId, CanonicalForm(c, u), signature))| <= MAX_SIGNED
  {
    hide TypedCapability, CapabilityOk, Flatten, CapabilityTokens, SignedTokens, HeadLen;
    CapabilityFits(c, u);
    var s := SignedCapability(keyId, CanonicalForm(c, u), signature);
    SignedSize(s);
    HeadSmall(|s.keyId|);
    HeadSmall(|s.capability|);
  }

  const LONGEST_PAYLOAD := 49075

  /** Payloads past 49,075 bytes are written and then refused under every key
      identifier; up to there a one-byte identifier brings them back. */
  lemma LongEnvelopeRefused(s: SignedCapability)
    requires KeyIdOk(s.keyId)
    ensures |s.capability| > LONGEST_PAYLOAD ==> EnvelopeSize(s) > MAX_SIGNED
    ensures |s.capability| <= LONGEST_PAYLOAD && |s.keyId| == 1 ==> EnvelopeSize(s) <= MAX_SIGNED
  {
  }
}
