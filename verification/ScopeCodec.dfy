/** Scopes written and read as deterministic CBOR, alone or inside a capability. */
module ScopeCodec {
  import opened Wrappers
  import opened Cbor
  import opened Scopes
  import opened Grammar

  // ----- fields: a map key and its value

  method ReadKey(reader: Reader, key: nat) returns (r: Outcome<()>)
    requires reader.Valid()
    modifies reader
    ensures reader.Valid() && Agrees(r, old(GetKey(reader.Rest(), key)), reader.Rest())
  {
    hide After, HeadLen, ParseRequired;
    var read := reader.Key(key);
    r := Lift(read);
    assert r.Done? ==> r.value == ();
  }

  method ReadValue(reader: Reader) returns (r: Outcome<nat>)
    requires reader.Valid()
    modifies reader
    ensures reader.Valid() && Agrees(r, old(GetItem(reader.Rest(), UNSIGNED)), reader.Rest())
  {
    hide After, HeadLen, ParseItem;
    var read := reader.ReadUint();
    r := Lift(read);
  }

  method UintField(reader: Reader, key: nat) returns (r: Outcome<nat>)
    requires reader.Valid()
    modifies reader
    ensures reader.Valid() && Agrees(r, old(GetUintField(reader.Rest(), key)), reader.Rest())
  {
    hide GetKey, GetItem;
    var _ :- ReadKey(reader, key);
    r := ReadValue(reader);
  }

  method FixedField(reader: Reader, key: nat, n: nat) returns (r: Outcome<Bytes>)
    requires reader.Valid()
    modifies reader
    ensures reader.Valid() && Agrees(r, old(GetFixedField(reader.Rest(), key, n)), reader.Rest())
  {
    hide GetKey, After, HeadLen, ParsePayload;
    var _ :- ReadKey(reader, key);
    PayloadLength(reader.Rest(), BYTES, n);
    var read := reader.FixedBytes(n);
    r := Lift(read);
  }

  lemma PayloadLength(b: Bytes, kind: nat, n: nat)
    ensures ParsePayload(b, kind, n, true).Ok? ==> |ParsePayload(b, kind, n, true).value| == n
  {
    hide ParseItem, HeadLen;
  }

  method CountField(reader: Reader, key: nat, major: nat, maximum: nat) returns (r: Outcome<nat>)
    requires reader.Valid()
    modifies reader
    ensures reader.Valid() && Agrees(r, old(GetCountField(reader.Rest(), key, major, maximum)), reader.Rest())
  {
    hide GetKey, After, HeadLen, ParseCount;
    var _ :- ReadKey(reader, key);
    var read := reader.Count(major, maximum);
    r := Lift(read);
  }

  method Opening(reader: Reader, major: nat, n: nat) returns (r: Outcome<()>)
    requires reader.Valid()
    modifies reader
    ensures reader.Valid() && Agrees(r, old(GetRequired(reader.Rest(), major, n)), reader.Rest())
  {
    hide After, HeadLen, ParseRequired;
    var read := reader.Require(major, n);
    r := Lift(read);
    assert r.Done? ==> r.value == ();
  }

  // ----- reading

  method ReadRange(reader: Reader) returns (r: Outcome<Range>)
    requires reader.Valid()
    modifies reader
    ensures reader.Valid() && Agrees(r, old(GetRange(reader.Rest())), reader.Rest())
  {
    hide GetRequired, GetItem;
    var _ :- Opening(reader, ARRAY, 2);
    var offset :- ReadValue(reader);
    var length :- ReadValue(reader);
    if length == 0 || offset + length >= U64 { return Refused(InvalidRange); }
    return Done(Range(offset, length));
  }

  method ReadRanges(reader: Reader, count: nat) returns (r: Outcome<seq<Range>>)
    requires reader.Valid()
    modifies reader
    ensures reader.Valid() && Agrees(r, old(GetMany(GetRange, reader.Rest(), count)), reader.Rest())
  {
    hide GetRange, GetMany, Prepend;
    ghost var parsed := GetMany(GetRange, reader.Rest(), count);
    NoneRead(parsed);
    var ranges: seq<Range> := [];
    for i := 0 to count
      invariant reader.Valid() && parsed == Prepend(ranges, GetMany(GetRange, reader.Rest(), count - i))
    {
      OneMore(GetRange, reader.Rest(), count - i, ranges);
      var range :- ReadRange(reader);
      ranges := ranges + [range];
    }
    AllRead(GetRange, reader.Rest(), ranges);
    r := Done(ranges);
  }

  method ReadLength(reader: Reader) returns (r: Outcome<Option<nat>>)
    requires reader.Valid()
    modifies reader
    ensures reader.Valid() && Agrees(r, old(GetLength(reader.Rest())), reader.Rest())
  {
    hide GetKey, GetItem, After;
    var _ :- ReadKey(reader, 2);
    var none := reader.PeekNull();
    if none {
      var _ := reader.ReadNull();
      return Done(None);
    }
    var value :- ReadValue(reader);
    return Done(Some(value));
  }

  /** The head of a scope: everything before its ranges. */
  method ReadScopeHead(reader: Reader) returns (r: Outcome<(nat, Bytes, Option<nat>)>)
    requires reader.Valid()
    modifies reader
    ensures reader.Valid() && Agrees(r, old(GetScopeHead(reader.Rest())), reader.Rest())
  {
    hide GetRequired, GetUintField, GetFixedField, GetLength;
    var _ :- Opening(reader, MAP, 4);
    var suite :- UintField(reader, 0);
    if suite >= U16 { return Refused(InvalidSuite(suite)); }
    var root :- FixedField(reader, 1, 32);
    var length :- ReadLength(reader);
    return Done((suite, root, length));
  }

  /** Reads one scope off the front of what is left. */
  method ReadScope(reader: Reader) returns (r: Outcome<Scope>)
    requires reader.Valid()
    modifies reader
    ensures reader.Valid() && Agrees(r, old(GetScope(reader.Rest())), reader.Rest())
  {
    hide GetScopeHead, GetCountField, GetRange, GetMany, ScopeVerdict, Typed;
    ghost var b := reader.Rest();
    var head :- ReadScopeHead(reader);
    var count :- CountField(reader, 3, ARRAY, MAX_RANGES);
    var ranges :- ReadRanges(reader, count);
    var scope := Scope(head.0, head.1, head.2, ranges);
    ReadTyped(b);
    var _ :- Validate(scope);
    return Done(scope);
  }

  /** What is read before the rules are checked has the types of a scope. */
  lemma ReadTyped(b: Bytes)
    ensures var head := GetScopeHead(b);
            head.Done? ==>
              var count := GetCountField(head.value.1, 3, ARRAY, MAX_RANGES);
              count.Done? ==>
                var ranges := GetMany(GetRange, count.value.1, count.value.0);
                ranges.Done? ==> Typed(Scope(head.value.0.0, head.value.0.1, head.value.0.2, ranges.value.0))
  {
    hide GetScopeHead, GetCountField, GetRange, GetMany, Begins, Tail;
    var head := GetScopeHead(b);
    if head.Done? {
      var h := head.value.0;
      ScopeHeadGot(b, h.0, h.1, h.2);
      assert h == (h.0, h.1, h.2);
      var count := GetCountField(head.value.1, 3, ARRAY, MAX_RANGES);
      if count.Done? {
        CountFieldGot(head.value.1, 3, ARRAY, MAX_RANGES, count.value.0);
        var ranges := GetMany(GetRange, count.value.1, count.value.0);
        if ranges.Done? { RangesGot(count.value.1, count.value.0, ranges.value.0); }
      }
    }
  }

  lemma ScopeWhole(s: Scope, start: seq<Token>)
    ensures start + ScopeHead(s.suite, s.root, s.length) + [Uint(3), Array(|s.ranges|)] + ManyTokens(RangeToken, s.ranges)
         == start + ScopeTokens(s)
  {
    hide ManyTokens, ScopeHead;
    var a, b, c := ScopeHead(s.suite, s.root, s.length), [Uint(3), Array(|s.ranges|)], ManyTokens(RangeToken, s.ranges);
    assert start + a + b + c == start + (a + (b + c));
  }

  // ----- writing

  /** Appends one scope, if the format allows it; else writes nothing. */
  method WriteScope(w: Writer, s: Scope) returns (r: Outcome<()>)
    requires w.Valid() && Typed(s)
    modifies w
    ensures r == ScopeVerdict(s)
    ensures w.Valid() && w.written == old(w.written) + (if r.Done? then ScopeTokens(s) else [])
  {
    hide Flatten, AllLegal, ManyTokens, Separated, Within, ScopeHead, ScopeTokens;
    var _ :- Validate(s);
    ghost var start := w.written;
    WriteScopeHead(w, s);
    w.PutUint(3);
    w.PutItem(ARRAY, |s.ranges|);
    assert w.written == start + ScopeHead(s.suite, s.root, s.length) + [Uint(3), Array(|s.ranges|)];
    WriteRanges(w, s.ranges);
    ScopeWhole(s, start);
    return Done(());
  }

  method WriteScopeHead(w: Writer, s: Scope)
    requires w.Valid() && Typed(s)
    modifies w
    ensures w.Valid() && w.written == old(w.written) + ScopeHead(s.suite, s.root, s.length)
  {
    hide Flatten, AllLegal;
    w.PutItem(MAP, 4);
    w.PutUint(0);
    w.PutUint(s.suite);
    w.PutUint(1);
    w.PutPayload(BYTES, s.root);
    w.PutUint(2);
    if s.length.Some? { w.PutUint(s.length.value); } else { w.PutNull(); }
  }

  method WriteRanges(w: Writer, ranges: seq<Range>)
    requires w.Valid() && forall i :: 0 <= i < |ranges| ==> RangeOk(ranges[i])
    modifies w
    ensures w.Valid() && w.written == old(w.written) + ManyTokens(RangeToken, ranges)
  {
    hide Flatten, AllLegal, ManyTokens;
    ghost var start := w.written;
    NoTokens(RangeToken);
    assert ranges[..0] == [];
    for i := 0 to |ranges|
      invariant w.Valid() && w.written == start + ManyTokens(RangeToken, ranges[..i])
    {
      w.PutItem(ARRAY, 2);
      w.PutUint(ranges[i].offset);
      w.PutUint(ranges[i].length);
      ManyAppend(RangeToken, ranges[..i], ranges[i]);
      assert ranges[..i + 1] == ranges[..i] + [ranges[i]];
    }
    assert ranges[..|ranges|] == ranges;
  }

  // ----- sizes

  lemma RangesLegal(ranges: seq<Range>)
    requires forall i :: 0 <= i < |ranges| ==> RangeOk(ranges[i])
    ensures AllLegal(ManyTokens(RangeToken, ranges)) && Size(ManyTokens(RangeToken, ranges)) <= 19 * |ranges|
  {
    hide Size, AllLegal, RangeToken, RangeOk;
    forall i | 0 <= i < |ranges|
      ensures AllLegal(RangeToken(ranges[i])) && Size(RangeToken(ranges[i])) <= 19
    {
      RangeFits(ranges[i]);
    }
    ManyFit(RangeToken, ranges, 19);
  }

  lemma RangeFits(r: Range)
    requires RangeOk(r)
    ensures AllLegal(RangeToken(r)) && Size(RangeToken(r)) <= 19
  {
    hide Size, HeadLen;
    SizeJoin([Array(2), Uint(r.offset)], [Uint(r.length)]);
    assert [Array(2), Uint(r.offset)] + [Uint(r.length)] == RangeToken(r);
    SizeOne(Uint(r.length));
    SizeTwo(Array(2), Uint(r.offset));
    HeadSmall(2);
    HeadSmall(r.offset);
    HeadSmall(r.length);
  }

  /** A valid scope always fits the bound its decoder imposes. */
  lemma ScopeFits(s: Scope)
    requires Typed(s) && ScopeOk(s)
    ensures AllLegal(ScopeTokens(s)) && Size(ScopeTokens(s)) <= 1280 <= MAX_SCOPE
    ensures |Flatten(ScopeTokens(s))| == Size(ScopeTokens(s))
  {
    hide Flatten, AllLegal, Size, ScopeTokens, ScopeHead, ManyTokens, Typed, ScopeOk, RangeOk;
    assert |s.ranges| <= MAX_RANGES && forall i :: 0 <= i < |s.ranges| ==> RangeOk(s.ranges[i]) by { FewRanges(s); }
    RangesLegal(s.ranges);
    HeadFits(s);
    var head, count := ScopeHead(s.suite, s.root, s.length), [Uint(3), Array(|s.ranges|)];
    CountFits(|s.ranges|);
    ScopeWhole(s, []);
    assert [] + ScopeTokens(s) == ScopeTokens(s) && [] + head == head;
    LegalJoin(head, count);
    LegalJoin(head + count, ManyTokens(RangeToken, s.ranges));
    SizeJoin(head, count);
    SizeJoin(head + count, ManyTokens(RangeToken, s.ranges));
    SizeIsLength(ScopeTokens(s));
  }

  lemma FewRanges(s: Scope)
    requires Typed(s) && ScopeOk(s)
    ensures |s.ranges| <= MAX_RANGES && forall i :: 0 <= i < |s.ranges| ==> RangeOk(s.ranges[i])
  {
  }

  lemma CountFits(n: nat)
    requires n <= 0xff
    ensures AllLegal([Uint(3), Array(n)]) && Size([Uint(3), Array(n)]) <= 3
  {
    hide Size;
    SizeTwo(Uint(3), Array(n));
  }

  lemma HeadFits(s: Scope)
    requires Typed(s)
    ensures AllLegal(ScopeHead(s.suite, s.root, s.length))
    ensures Size(ScopeHead(s.suite, s.root, s.length)) <= 50
  {
    hide Size;
    var a, b := [Map(4), Uint(0)], [Uint(s.suite), Uint(1)];
    var c, d := [ByteString(s.root), Uint(2)], [LengthToken(s.length)];
    assert ScopeHead(s.suite, s.root, s.length) == (a + b) + (c + d);
    SizeJoin(a + b, c + d);
    SizeJoin(a, b);
    SizeJoin(c, d);
    SizeTwo(Map(4), Uint(0));
    SizeTwo(Uint(s.suite), Uint(1));
    SizeTwo(ByteString(s.root), Uint(2));
    SizeOne(LengthToken(s.length));
  }

  // ----- a scope on its own

  /** The canonical bytes of a scope the format allows. */
  ghost function ScopeBytes(s: Scope): Bytes
    requires Typed(s) && ScopeOk(s)
  {
    ScopeFits(s);
    Flatten(ScopeTokens(s))
  }

  method EncodeScope(s: Scope) returns (r: Outcome<Bytes>)
    requires Typed(s)
    ensures r.Done? <==> ScopeOk(s)
    ensures r.Refused? ==> r.refusal == ScopeVerdict(s).refusal
    ensures r.Done? ==> r.value == ScopeBytes(s) && |r.value| <= MAX_SCOPE
  {
    hide Flatten, ScopeTokens, ScopeOk, Typed;
    var w := new Writer();
    var _ :- WriteScope(w, s);
    ScopeFits(s);
    assert [] + ScopeTokens(s) == ScopeTokens(s);
    return Done(w.out);
  }

  /** A scope is what some bytes decode to exactly when it is one the format
      allows and they are its canonical bytes. */
  lemma ScopeExact(input: Bytes, s: Scope)
    ensures ScopeResult(input) == Done(s) <==> Typed(s) && ScopeOk(s) && input == ScopeBytes(s)
  {
    hide Flatten, ScopeTokens, ScopeOk, Typed, AllLegal, GetScope, Begins, Tail;
    ScopeGot(input, s);
    BeginsWhole(input, ScopeTokens(s));
    if Typed(s) && ScopeOk(s) { ScopeFits(s); }
  }

  method DecodeScope(input: Bytes) returns (r: Outcome<Scope>)
    ensures r == ScopeResult(input)
    ensures r.Done? ==> Typed(r.value) && ScopeOk(r.value) && input == ScopeBytes(r.value)
  {
    hide GetScope, ScopeOk, Typed, ScopeBytes;
    if |input| > MAX_SCOPE { return Refused(TooBig); }
    var reader := new Reader(input);
    var scope :- ReadScope(reader);
    var end := reader.Finish();
    var _ :- Lift(end);
    ScopeExact(input, scope);
    return Done(scope);
  }

  /** What is encoded decodes to itself. */
  method ScopeRoundTrip(s: Scope) returns (r: Outcome<Scope>)
    requires Typed(s) && ScopeOk(s)
    ensures r == Done(s)
  {
    hide ScopeOk, Typed, ScopeBytes, ScopeResult;
    var bytes := EncodeScope(s);
    ScopeExact(bytes.value, s);
    r := DecodeScope(bytes.value);
  }
}
