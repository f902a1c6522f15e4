/** What is read off the front of some bytes, and why it is refused: items of
    deterministic CBOR, map fields, and scopes. */
module Grammar {
  import opened Wrappers
  import opened Cbor
  import opened Scopes

  // ----- items in front of some bytes

  /** The bytes start with these items. */
  ghost predicate Begins(b: Bytes, ts: seq<Token>) {
    AllLegal(ts) && Flatten(ts) <= b
  }

  /** The bytes after them. */
  ghost function Tail(b: Bytes, ts: seq<Token>): Bytes {
    if AllLegal(ts) then After(b, |Flatten(ts)|) else []
  }

  /** This value is read exactly where it may be and its items are in front, and
      then exactly those items are consumed. */
  ghost predicate Exact<T(!new)>(parsed: Outcome<(T, Bytes)>, value: T, ok: bool, b: Bytes, ts: seq<Token>) {
    && (parsed.Done? && parsed.value.0 == value <==> ok && Begins(b, ts))
    && (parsed.Done? && parsed.value.0 == value ==> parsed.value.1 == Tail(b, ts))
  }

  lemma BeginsJoin(b: Bytes, ts: seq<Token>, us: seq<Token>)
    ensures Begins(b, ts + us) <==> Begins(b, ts) && Begins(Tail(b, ts), us)
    ensures Begins(b, ts + us) ==> Tail(b, ts + us) == Tail(Tail(b, ts), us)
  {
    hide Flatten, Legal;
    assert AllLegal(ts + us) ==> AllLegal(ts) && AllLegal(us) by {
      if AllLegal(ts + us) {
        forall i | 0 <= i < |us| ensures Legal(us[i]) { assert us[i] == (ts + us)[|ts| + i]; }
        forall i | 0 <= i < |ts| ensures Legal(ts[i]) { assert ts[i] == (ts + us)[i]; }
      }
    }
    if AllLegal(ts) && AllLegal(us) {
      FlattenJoin(ts, us);
      PrefixJoin(b, Flatten(ts), Flatten(us));
    }
  }

  lemma PrefixJoin(b: Bytes, p: Bytes, q: Bytes)
    ensures p + q <= b <==> p <= b && q <= After(b, |p|)
    ensures p + q <= b ==> After(b, |p + q|) == After(After(b, |p|), |q|)
  {
    if p + q <= b {
      assert b[..|p|] == (p + q)[..|p|];
      assert b[|p|..][..|q|] == (p + q)[|p|..];
    }
    if p <= b && q <= After(b, |p|) {
      assert b[..|p + q|] == b[..|p|] + b[|p|..][..|q|];
    }
  }

  lemma OneItem(b: Bytes, t: Token)
    ensures Begins(b, [t]) <==> Legal(t) && TokenBytes(t) <= b
    ensures Legal(t) ==> Tail(b, [t]) == After(b, |TokenBytes(t)|)
  {
    hide TokenBytes, Legal;
    if Legal(t) { FlattenAppend([], t); }
    assert [] + [t] == [t] && [t][0] == t;
    assert Legal(t) ==> Flatten([]) + TokenBytes(t) == TokenBytes(t);
  }

  lemma NoItems(b: Bytes)
    ensures Begins(b, []) && Tail(b, []) == b
  {
  }

  /** Items that start the bytes and leave nothing are all of them. */
  lemma BeginsWhole(b: Bytes, ts: seq<Token>)
    ensures Begins(b, ts) && Tail(b, ts) == [] <==> AllLegal(ts) && b == Flatten(ts)
  {
    hide Flatten, AllLegal;
  }

  // ----- items, each with the bytes after it

  ghost function GetItem(b: Bytes, major: nat): Outcome<(nat, Bytes)> {
    match ParseItem(b, major)
    case Ok(value) => Done((value, After(b, HeadLen(value))))
    case Err(e) => Refused(Encoding(e))
  }

  ghost function GetRequired(b: Bytes, major: nat, expected: nat): Outcome<((), Bytes)> {
    match ParseRequired(b, major, expected)
    case Ok(_) => Done(((), After(b, HeadLen(expected))))
    case Err(e) => Refused(Encoding(e))
  }

  ghost function GetCount(b: Bytes, major: nat, maximum: nat): Outcome<(nat, Bytes)> {
    match ParseCount(b, major, maximum)
    case Ok(value) => Done((value, After(b, HeadLen(value))))
    case Err(e) => Refused(Encoding(e))
  }

  ghost function GetPayload(b: Bytes, kind: nat, maximum: nat, fixed: bool): Outcome<(Bytes, Bytes)> {
    match ParsePayload(b, kind, maximum, fixed)
    case Ok(bytes) => Done((bytes, After(b, HeadLen(|bytes|) + |bytes|)))
    case Err(e) => Refused(Encoding(e))
  }

  ghost function GetText(b: Bytes, maximum: nat, utf8: Bytes -> bool): Outcome<(Bytes, Bytes)> {
    match ParseText(b, maximum, utf8)
    case Ok(bytes) => Done((bytes, After(b, HeadLen(|bytes|) + |bytes|)))
    case Err(e) => Refused(Encoding(e))
  }

  lemma ItemGot(b: Bytes, major: nat, value: nat)
    requires major < 7
    ensures Exact(GetItem(b, major), value, value < U64, b, [Item(major, value)])
  {
    hide ParseItem, HeadBytes, HeadLen, Flatten;
    ItemExact(b, major, value);
    OneItem(b, Item(major, value));
  }

  lemma RequiredGot(b: Bytes, major: nat, expected: nat)
    requires major < 7
    ensures Exact(GetRequired(b, major, expected), (), true, b, [Item(major, expected)])
    ensures GetRequired(b, major, expected).Done? ==> GetRequired(b, major, expected).value.0 == ()
  {
    hide ParseItem, HeadBytes, HeadLen, Flatten;
    ItemExact(b, major, expected);
    OneItem(b, Item(major, expected));
  }

  lemma CountGot(b: Bytes, major: nat, maximum: nat, value: nat)
    requires major < 7
    ensures Exact(GetCount(b, major, maximum), value, value <= maximum, b, [Item(major, value)])
  {
    hide ParseItem, HeadBytes, HeadLen, Flatten;
    ItemExact(b, major, value);
    OneItem(b, Item(major, value));
  }

  lemma PayloadGot(b: Bytes, kind: nat, maximum: nat, fixed: bool, bytes: Bytes)
    requires kind < 7 && maximum < U64
    ensures Exact(GetPayload(b, kind, maximum, fixed), bytes, |bytes| <= maximum && (fixed ==> |bytes| == maximum), b,
                  [Payload(kind, bytes)])
  {
    hide ParsePayload, HeadBytes, HeadLen, Flatten;
    PayloadExact(b, kind, maximum, fixed, bytes);
    OneItem(b, Payload(kind, bytes));
  }

  lemma TextGot(b: Bytes, maximum: nat, utf8: Bytes -> bool, text: Bytes)
    requires maximum < U64
    ensures Exact(GetText(b, maximum, utf8), text, |text| <= maximum && utf8(text), b, [TextString(text)])
  {
    hide ParseText, HeadBytes, HeadLen, Flatten;
    TextExact(b, maximum, utf8, text);
    OneItem(b, TextString(text));
  }

  // ----- a map key and its value

  ghost function GetKey(b: Bytes, key: nat): Outcome<((), Bytes)> {
    GetRequired(b, UNSIGNED, key)
  }

  ghost function GetUintField(b: Bytes, key: nat): Outcome<(nat, Bytes)> {
    var k :- GetKey(b, key);
    GetItem(k.1, UNSIGNED)
  }

  ghost function GetFixedField(b: Bytes, key: nat, n: nat): Outcome<(Bytes, Bytes)> {
    var k :- GetKey(b, key);
    GetPayload(k.1, BYTES, n, true)
  }

  ghost function GetBytesField(b: Bytes, key: nat, maximum: nat): Outcome<(Bytes, Bytes)> {
    var k :- GetKey(b, key);
    GetPayload(k.1, BYTES, maximum, false)
  }

  ghost function GetTextField(b: Bytes, key: nat, maximum: nat, utf8: Bytes -> bool): Outcome<(Bytes, Bytes)> {
    var k :- GetKey(b, key);
    GetText(k.1, maximum, utf8)
  }

  ghost function GetCountField(b: Bytes, key: nat, major: nat, maximum: nat): Outcome<(nat, Bytes)> {
    var k :- GetKey(b, key);
    GetCount(k.1, major, maximum)
  }

  lemma KeyThen(b: Bytes, key: nat, t: Token)
    ensures Begins(b, [Uint(key), t]) <==> GetKey(b, key).Done? && Begins(GetKey(b, key).value.1, [t])
    ensures Begins(b, [Uint(key), t]) ==> Tail(b, [Uint(key), t]) == Tail(GetKey(b, key).value.1, [t])
    ensures GetKey(b, key).Done? ==> GetKey(b, key).value.1 == Tail(b, [Uint(key)])
  {
    hide Begins, Tail, GetRequired;
    RequiredGot(b, UNSIGNED, key);
    assert [Uint(key)] + [t] == [Uint(key), t];
    BeginsJoin(b, [Uint(key)], [t]);
  }

  lemma UintFieldGot(b: Bytes, key: nat, value: nat)
    ensures Exact(GetUintField(b, key), value, value < U64, b, [Uint(key), Uint(value)])
  {
    hide Begins, Tail, GetKey, GetItem;
    KeyThen(b, key, Uint(value));
    if GetKey(b, key).Done? { ItemGot(GetKey(b, key).value.1, UNSIGNED, value); }
  }

  lemma FixedFieldGot(b: Bytes, key: nat, n: nat, bytes: Bytes)
    requires n < U64
    ensures Exact(GetFixedField(b, key, n), bytes, |bytes| == n, b, [Uint(key), ByteString(bytes)])
  {
    hide Begins, Tail, GetKey, GetPayload;
    KeyThen(b, key, ByteString(bytes));
    if GetKey(b, key).Done? { PayloadGot(GetKey(b, key).value.1, BYTES, n, true, bytes); }
  }

  lemma BytesFieldGot(b: Bytes, key: nat, maximum: nat, bytes: Bytes)
    requires maximum < U64
    ensures Exact(GetBytesField(b, key, maximum), bytes, |bytes| <= maximum, b, [Uint(key), ByteString(bytes)])
  {
    hide Begins, Tail, GetKey, GetPayload;
    KeyThen(b, key, ByteString(bytes));
    if GetKey(b, key).Done? { PayloadGot(GetKey(b, key).value.1, BYTES, maximum, false, bytes); }
  }

  lemma TextFieldGot(b: Bytes, key: nat, maximum: nat, utf8: Bytes -> bool, text: Bytes)
    requires maximum < U64
    ensures Exact(GetTextField(b, key, maximum, utf8), text, |text| <= maximum && utf8(text), b,
                  [Uint(key), TextString(text)])
  {
    hide Begins, Tail, GetKey, GetText;
    KeyThen(b, key, TextString(text));
    if GetKey(b, key).Done? { TextGot(GetKey(b, key).value.1, maximum, utf8, text); }
  }

  lemma CountFieldGot(b: Bytes, key: nat, major: nat, maximum: nat, n: nat)
    requires major < 7
    ensures Exact(GetCountField(b, key, major, maximum), n, n <= maximum, b, [Uint(key), Item(major, n)])
  {
    hide Begins, Tail, GetKey, GetCount;
    KeyThen(b, key, Item(major, n));
    if GetKey(b, key).Done? { CountGot(GetKey(b, key).value.1, major, maximum, n); }
  }

  // ----- several of one kind

  ghost function GetMany<T>(get: Bytes -> Outcome<(T, Bytes)>, b: Bytes, count: nat): Outcome<(seq<T>, Bytes)>
    decreases count
  {
    if count == 0 then Done(([], b)) else
    var first :- get(b);
    Prepend([first.0], GetMany(get, first.1, count - 1))
  }

  /** More values in front of those still to be read. */
  ghost function Prepend<T>(values: seq<T>, parsed: Outcome<(seq<T>, Bytes)>): Outcome<(seq<T>, Bytes)> {
    match parsed
    case Done(found) => Done((values + found.0, found.1))
    case Refused(why) => Refused(why)
  }

  ghost function ManyTokens<T>(tokens: T -> seq<Token>, values: seq<T>): seq<Token> {
    if values == [] then [] else tokens(values[0]) + ManyTokens(tokens, values[1..])
  }

  ghost predicate AllOk<T>(ok: T -> bool, values: seq<T>) {
    forall i :: 0 <= i < |values| ==> ok(values[i])
  }

  lemma NoneRead<T>(parsed: Outcome<(seq<T>, Bytes)>)
    ensures Prepend([], parsed) == parsed
  {
    if parsed.Done? { assert [] + parsed.value.0 == parsed.value.0; }
  }

  /** One value more of those to be read. */
  lemma OneMore<T>(get: Bytes -> Outcome<(T, Bytes)>, b: Bytes, count: nat, values: seq<T>)
    requires count > 0
    ensures Prepend(values, GetMany(get, b, count)) ==
            match get(b)
            case Done(first) => Prepend(values + [first.0], GetMany(get, first.1, count - 1))
            case Refused(why) => Refused(why)
  {
    if get(b).Done? {
      var first := get(b).value;
      var more := GetMany(get, first.1, count - 1);
      if more.Done? { assert values + [first.0] + more.value.0 == values + ([first.0] + more.value.0); }
    }
  }

  lemma AllRead<T>(get: Bytes -> Outcome<(T, Bytes)>, b: Bytes, values: seq<T>)
    ensures Prepend(values, GetMany(get, b, 0)) == Done((values, b))
  {
    assert values + [] == values;
  }

  lemma {:induction false} ManyGot<T(!new)>(get: Bytes -> Outcome<(T, Bytes)>, ok: T -> bool, tokens: T -> seq<Token>,
                                            b: Bytes, count: nat, values: seq<T>)
    requires forall b, value :: Exact(get(b), value, ok(value), b, tokens(value))
    ensures Exact(GetMany(get, b, count), values, |values| == count && AllOk(ok, values), b, ManyTokens(tokens, values))
    decreases count
  {
    hide Begins, Tail;
    if count == 0 {
      NoItems(b);
    } else if values != [] {
      var first := values[0];
      assert Exact(get(b), first, ok(first), b, tokens(first));
      ManyGot(get, ok, tokens, Tail(b, tokens(first)), count - 1, values[1..]);
      BeginsJoin(b, tokens(first), ManyTokens(tokens, values[1..]));
      assert values == [first] + values[1..];
    }
  }

  lemma NoTokens<T>(tokens: T -> seq<Token>)
    ensures ManyTokens(tokens, []) == []
  {
  }

  lemma {:induction false} ManyAppend<T>(tokens: T -> seq<Token>, values: seq<T>, value: T)
    ensures ManyTokens(tokens, values + [value]) == ManyTokens(tokens, values) + tokens(value)
  {
    if values == [] {
      assert ManyTokens(tokens, [value]) == tokens(value) + ManyTokens(tokens, []);
    } else {
      ManyAppend(tokens, values[1..], value);
      assert (values + [value])[1..] == values[1..] + [value];
    }
  }

  /** Several values take at most so many bytes if each takes its share. */
  lemma {:induction false} ManyFit<T>(tokens: T -> seq<Token>, values: seq<T>, each: nat)
    requires forall i :: 0 <= i < |values| ==> AllLegal(tokens(values[i])) && Size(tokens(values[i])) <= each
    ensures AllLegal(ManyTokens(tokens, values)) && Size(ManyTokens(tokens, values)) <= each * |values|
  {
    hide Size, AllLegal;
    if values == [] {
      SizeNone();
    } else {
      ManyFit(tokens, values[1..], each);
      LegalJoin(tokens(values[0]), ManyTokens(tokens, values[1..]));
      SizeJoin(tokens(values[0]), ManyTokens(tokens, values[1..]));
      assert each * |values| == each + each * |values[1..]|;
    }
  }

  lemma SizeNone()
    ensures AllLegal([]) && Size([]) == 0
  {
  }

  // ----- scopes

  ghost function GetRange(b: Bytes): Outcome<(Range, Bytes)> {
    var pair :- GetRequired(b, ARRAY, 2);
    var offset :- GetItem(pair.1, UNSIGNED);
    var length :- GetItem(offset.1, UNSIGNED);
    if length.0 == 0 || offset.0 + length.0 >= U64 then Refused(InvalidRange)
    else Done((Range(offset.0, length.0), length.1))
  }

  ghost function GetLength(b: Bytes): Outcome<(Option<nat>, Bytes)> {
    var k :- GetKey(b, 2);
    if k.1 != [] && k.1[0] == NULL then Done((None, After(k.1, 1))) else
    var value :- GetItem(k.1, UNSIGNED);
    Done((Some(value.0), value.1))
  }

  ghost function GetScopeHead(b: Bytes): Outcome<((nat, Bytes, Option<nat>), Bytes)> {
    var fields :- GetRequired(b, MAP, 4);
    var suite :- GetUintField(fields.1, 0);
    if suite.0 >= U16 then Refused(InvalidSuite(suite.0)) else
    var root :- GetFixedField(suite.1, 1, 32);
    var length :- GetLength(root.1);
    Done(((suite.0, root.0, length.0), length.1))
  }

  ghost function GetScope(b: Bytes): Outcome<(Scope, Bytes)> {
    var head :- GetScopeHead(b);
    var count :- GetCountField(head.1, 3, ARRAY, MAX_RANGES);
    var ranges :- GetMany(GetRange, count.1, count.0);
    var scope := Scope(head.0.0, head.0.1, head.0.2, ranges.0);
    var _ :- ScopeVerdict(scope);
    Done((scope, ranges.1))
  }

  // ----- a scope's items

  ghost function RangeToken(r: Range): seq<Token> {
    [Array(2), Uint(r.offset), Uint(r.length)]
  }

  ghost function LengthToken(length: Option<nat>): Token {
    match length case Some(n) => Uint(n) case None => Null
  }

  /** Everything before its ranges. */
  ghost function ScopeHead(suite: nat, root: Bytes, length: Option<nat>): seq<Token> {
    [Map(4), Uint(0), Uint(suite), Uint(1), ByteString(root), Uint(2), LengthToken(length)]
  }

  ghost function ScopeTokens(s: Scope): seq<Token> {
    ScopeHead(s.suite, s.root, s.length) + ([Uint(3), Array(|s.ranges|)] + ManyTokens(RangeToken, s.ranges))
  }

  lemma RangeGot(b: Bytes, range: Range)
    ensures Exact(GetRange(b), range, RangeOk(range), b, RangeToken(range))
  {
    hide Begins, Tail, GetRequired, GetItem;
    var open, offset, length := [Array(2)], [Uint(range.offset)], [Uint(range.length)];
    var b1 := Tail(b, open);
    var b2 := Tail(b1, offset);
    assert RangeToken(range) == open + (offset + length);
    BeginsJoin(b, open, offset + length);
    BeginsJoin(b1, offset, length);
    RequiredGot(b, ARRAY, 2);
    ItemGot(b1, UNSIGNED, range.offset);
    ItemGot(b2, UNSIGNED, range.length);
  }

  lemma RangesGot(b: Bytes, count: nat, ranges: seq<Range>)
    ensures Exact(GetMany(GetRange, b, count), ranges, |ranges| == count && AllOk(RangeOk, ranges), b,
                  ManyTokens(RangeToken, ranges))
  {
    hide Exact, GetRange, RangeToken, RangeOk;
    forall b, range ensures Exact(GetRange(b), range, RangeOk(range), b, RangeToken(range)) { RangeGot(b, range); }
    ManyGot(GetRange, RangeOk, RangeToken, b, count, ranges);
  }

  lemma LengthGot(b: Bytes, length: Option<nat>)
    ensures Exact(GetLength(b), length, length.Some? ==> length.value < U64, b, [Uint(2), LengthToken(length)])
  {
    hide Begins, Tail, GetKey, GetItem, Flatten;
    KeyThen(b, 2, LengthToken(length));
    if GetKey(b, 2).Done? {
      var b1 := GetKey(b, 2).value.1;
      OneItem(b1, LengthToken(length));
      if length.Some? {
        ItemGot(b1, UNSIGNED, length.value);
        if length.value < U64 { FirstByte(UNSIGNED, length.value); }
      }
    }
  }

  lemma ScopeHeadGot(b: Bytes, suite: nat, root: Bytes, length: Option<nat>)
    ensures Exact(GetScopeHead(b), (suite, root, length),
                  suite < U16 && |root| == 32 && (length.Some? ==> length.value < U64), b,
                  ScopeHead(suite, root, length))
  {
    hide Begins, Tail, GetRequired, GetUintField, GetFixedField, GetLength, LengthToken;
    var open, suited, rooted, sized :=
      [Map(4)], [Uint(0), Uint(suite)], [Uint(1), ByteString(root)], [Uint(2), LengthToken(length)];
    var b1 := Tail(b, open);
    var b2 := Tail(b1, suited);
    var b3 := Tail(b2, rooted);
    assert ScopeHead(suite, root, length) == open + (suited + (rooted + sized));
    BeginsJoin(b, open, suited + (rooted + sized));
    BeginsJoin(b1, suited, rooted + sized);
    BeginsJoin(b2, rooted, sized);
    RequiredGot(b, MAP, 4);
    UintFieldGot(b1, 0, suite);
    FixedFieldGot(b2, 1, 32, root);
    LengthGot(b3, length);
  }

  /** A scope is read exactly when it is one the format allows and its canonical
      items are in front. */
  lemma ScopeGot(b: Bytes, s: Scope)
    ensures Exact(GetScope(b), s, Typed(s) && ScopeOk(s), b, ScopeTokens(s))
  {
    hide Begins, Tail, GetScopeHead, GetCountField, GetRange, GetMany, ScopeHead, RangeToken, ManyTokens, Separated, Within;
    var head, count := ScopeHead(s.suite, s.root, s.length), [Uint(3), Array(|s.ranges|)];
    var ranges := ManyTokens(RangeToken, s.ranges);
    var b1 := Tail(b, head);
    var b2 := Tail(b1, count);
    BeginsJoin(b, head, count + ranges);
    BeginsJoin(b1, count, ranges);
    ScopeHeadGot(b, s.suite, s.root, s.length);
    CountFieldGot(b1, 3, ARRAY, MAX_RANGES, |s.ranges|);
    RangesGot(b2, |s.ranges|, s.ranges);
    if GetScope(b).Done? && GetScope(b).value.0 == s {
      var read := GetScopeHead(b).value;
      assert read.0 == (s.suite, s.root, s.length);
      var n := GetCountField(b1, 3, ARRAY, MAX_RANGES).value;
      RangesGot(n.1, n.0, s.ranges);
    }
  }

  /** The whole input as one scope. */
  ghost function ScopeResult(input: Bytes): Outcome<Scope> {
    if |input| > MAX_SCOPE then Refused(TooBig) else
    var scope :- GetScope(input);
    Whole(scope.0, scope.1)
  }

  /** What was read, if nothing follows it. */
  ghost function Whole<T>(value: T, rest: Bytes): Outcome<T> {
    if rest == [] then Done(value) else Refused(Encoding(Trailing))
  }

  // ----- readers against them

  /** A reader's outcome is the grammar's, and so is what it leaves unread. */
  ghost predicate Agrees<T>(r: Outcome<T>, parsed: Outcome<(T, Bytes)>, rest: Bytes) {
    match parsed
    case Done(found) => r == Done(found.0) && rest == found.1
    case Refused(why) => r == Refused(why)
  }
}
