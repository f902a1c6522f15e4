/** Deterministic CBOR (section 4.2.1 of RFC 8949), restricted to unsigned
    integers, byte and text strings, definite arrays and maps, and null. */
module Cbor {
  import opened Wrappers
  import opened BigEndian

  type Byte = octet
  type Bytes = seq<Byte>

  const U64: nat := 0x1_0000_0000_0000_0000
  const I64: int := 0x8000_0000_0000_0000

  const UNSIGNED: nat := 0
  const NEGATIVE: nat := 1
  const BYTES: nat := 2
  const TEXT: nat := 3
  const ARRAY: nat := 4
  const MAP: nat := 5
  const NULL: Byte := 0xf6

  datatype Error = Truncated | Malformed | NonCanonical | WrongType | TooLarge | Trailing | NotUtf8

  datatype Result<T> = Ok(value: T) | Err(error: Error) {
    predicate IsFailure() {
      Err?
    }
    function PropagateFailure<U>(): Result<U>
      requires IsFailure()
    {
      Result<U>.Err(error)
    }
    function Extract(): T
      requires !IsFailure()
    {
      value
    }
  }

  // ----- heads

  /** Bytes after the first in a head of the shortest form. */
  function Width(value: nat): nat {
    if value <= 23 then 0 else if value <= 0xff then 1 else if value <= 0xffff then 2
    else if value <= 0xffff_ffff then 4 else 8
  }

  function HeadLen(value: nat): nat {
    1 + Width(value)
  }

  /** The additional-information value that announces a width. */
  function Additional(width: nat): nat
    requires width in {1, 2, 4, 8}
  {
    if width == 1 then 24 else if width == 2 then 25 else if width == 4 then 26 else 27
  }

  function HeadBytes(major: nat, value: nat): (r: Bytes)
    requires major < 8 && value < U64
    ensures |r| == HeadLen(value)
  {
    if Width(value) == 0 then [32 * major + value]
    else [32 * major + Additional(Width(value))] + Big(value, Width(value))
  }

  datatype Head = Head(major: nat, value: nat)

  /** The width an additional-information value announces. */
  function Announced(additional: nat): Option<nat> {
    if additional <= 23 then Some(0) else if additional == 24 then Some(1) else if additional == 25 then Some(2)
    else if additional == 26 then Some(4) else if additional == 27 then Some(8) else None
  }

  /** The least value a width may carry. */
  function Floor(width: nat): nat {
    if width == 0 then 0 else if width == 1 then 24 else if width == 2 then 0x100
    else if width == 4 then 0x1_0000 else 0x1_0000_0000
  }

  /** One head off the front of some bytes. */
  function ParseHead(b: Bytes): Result<Head> {
    if b == [] then Err(Truncated) else
    var additional := b[0] % 32;
    match Announced(additional)
    case None => Err(Malformed)
    case Some(width) =>
      if |b| < 1 + width then Err(Truncated) else
      var value := if width == 0 then additional else Num(b[1..1 + width]);
      if value < Floor(width) then Err(NonCanonical) else Ok(Head(b[0] / 32, value))
  }

  lemma WidthFits(value: nat)
    requires value < U64
    ensures Width(value) in {0, 1, 2, 4, 8} && Floor(Width(value)) <= value
    ensures Width(value) != 0 ==> value < Span(Width(value)) && Announced(Additional(Width(value))) == Some(Width(value))
  {
    Spans();
  }

  lemma WidthUnique(width: nat, value: nat)
    requires width in {1, 2, 4, 8} && Floor(width) <= value < Span(width)
    ensures Width(value) == width && value < U64
  {
    Spans();
  }

  /** What `HeadBytes` writes is read back, whatever follows it. */
  lemma ParseOfHead(major: nat, value: nat, rest: Bytes)
    requires major < 8 && value < U64
    ensures ParseHead(HeadBytes(major, value) + rest) == Ok(Head(major, value))
  {
    hide Width, Additional, Announced, Floor, Span, Num, Big;
    WidthFits(value);
    FirstByte(major, value);
    var b, width := HeadBytes(major, value) + rest, Width(value);
    assert b[0] == HeadBytes(major, value)[0];
    if width != 0 {
      NumBig(value, width);
      assert b[1..1 + width] == Big(value, width);
    }
  }

  lemma FirstByte(major: nat, value: nat)
    requires major < 8 && value < U64
    ensures HeadBytes(major, value)[0] / 32 == major
    ensures var additional := HeadBytes(major, value)[0] % 32;
            && Announced(additional) == Some(Width(value)) && (Width(value) == 0 ==> additional == value)
  {
    hide Big;
  }

  /** A head that is read is the shortest form of its value. */
  lemma HeadOfParse(b: Bytes)
    requires ParseHead(b).Ok?
    ensures var h := ParseHead(b).value;
            && h.major < 8 && h.value < U64 && HeadLen(h.value) <= |b|
            && b[..HeadLen(h.value)] == HeadBytes(h.major, h.value)
  {
    hide Span, Num, Big;
    var h, additional := ParseHead(b).value, b[0] % 32;
    var width := Announced(additional).value;
    if width == 0 {
      assert b[..1] == [b[0]];
    } else {
      BigNum(b[1..1 + width]);
      WidthUnique(width, h.value);
      assert b[..1 + width] == [b[0]] + b[1..1 + width];
    }
  }

  // ----- items

  /** One encoded item: a head alone, a head with its payload, or null. */
  datatype Token = Item(major: nat, value: nat) | Payload(kind: nat, bytes: Bytes) | Null

  ghost predicate Legal(t: Token) {
    match t
    case Item(major, value) => major < 7 && value < U64
    case Payload(kind, bytes) => kind < 7 && |bytes| < U64
    case Null => true
  }

  function Uint(v: nat): Token { Item(UNSIGNED, v) }
  /** A signed integer: its magnitude, or one less than it below zero. */
  function Int(v: int): Token { if v < 0 then Item(NEGATIVE, -1 - v) else Item(UNSIGNED, v) }
  function Array(n: nat): Token { Item(ARRAY, n) }
  function Map(n: nat): Token { Item(MAP, n) }
  function ByteString(b: Bytes): Token { Payload(BYTES, b) }
  function TextString(b: Bytes): Token { Payload(TEXT, b) }

  ghost function TokenBytes(t: Token): (r: Bytes)
    requires Legal(t)
    ensures r != []
  {
    match t
    case Item(major, value) => HeadBytes(major, value)
    case Payload(kind, bytes) => HeadBytes(kind, |bytes|) + bytes
    case Null => [NULL]
  }

  ghost predicate AllLegal(ts: seq<Token>) {
    forall i :: 0 <= i < |ts| ==> Legal(ts[i])
  }

  ghost function Flatten(ts: seq<Token>): Bytes
    requires AllLegal(ts)
  {
    if ts == [] then [] else Flatten(ts[..|ts| - 1]) + TokenBytes(ts[|ts| - 1])
  }

  lemma FlattenAppend(ts: seq<Token>, t: Token)
    requires AllLegal(ts) && Legal(t)
    ensures AllLegal(ts + [t]) && Flatten(ts + [t]) == Flatten(ts) + TokenBytes(t)
  {
    assert (ts + [t])[..|ts|] == ts;
  }

  lemma {:induction false} FlattenJoin(a: seq<Token>, b: seq<Token>)
    requires AllLegal(a) && AllLegal(b)
    ensures AllLegal(a + b) && Flatten(a + b) == Flatten(a) + Flatten(b)
    decreases |b|
  {
    hide Legal, TokenBytes;
    if b == [] {
      assert a + b == a;
    } else {
      var front := b[..|b| - 1];
      FlattenJoin(a, front);
      assert (a + b)[..|a + b| - 1] == a + front;
      assert Flatten(a) + (Flatten(front) + TokenBytes(b[|b| - 1])) == Flatten(a) + Flatten(front) + TokenBytes(b[|b| - 1]);
    }
  }

  lemma LegalJoin(a: seq<Token>, b: seq<Token>)
    requires AllLegal(a) && AllLegal(b)
    ensures AllLegal(a + b)
  {
    hide Legal;
  }

  // ----- sizes

  function TokenSize(t: Token): nat {
    match t
    case Item(_, value) => HeadLen(value)
    case Payload(_, bytes) => HeadLen(|bytes|) + |bytes|
    case Null => 1
  }

  function Size(ts: seq<Token>): nat {
    if ts == [] then 0 else Size(ts[..|ts| - 1]) + TokenSize(ts[|ts| - 1])
  }

  lemma {:induction false} SizeIsLength(ts: seq<Token>)
    requires AllLegal(ts)
    ensures |Flatten(ts)| == Size(ts)
  {
    hide Width;
    if ts != [] { SizeIsLength(ts[..|ts| - 1]); }
  }

  lemma {:induction false} SizeJoin(a: seq<Token>, b: seq<Token>)
    ensures Size(a + b) == Size(a) + Size(b)
    decreases |b|
  {
    hide TokenSize;
    if b == [] {
      assert a + b == a;
    } else {
      var front := b[..|b| - 1];
      SizeJoin(a, front);
      assert (a + b)[..|a + b| - 1] == a + front;
    }
  }

  lemma SizeOne(t: Token)
    ensures Size([t]) == TokenSize(t)
  {
    hide TokenSize;
    assert [t][..0] == [];
  }

  lemma SizeTwo(t: Token, u: Token)
    ensures Size([t, u]) == TokenSize(t) + TokenSize(u)
  {
    hide Size, TokenSize;
    SizeJoin([t], [u]);
    SizeOne(t);
    SizeOne(u);
    assert [t] + [u] == [t, u];
  }

  lemma HeadSmall(value: nat)
    ensures HeadLen(value) <= 9 && (value <= 23 ==> HeadLen(value) == 1) && (value <= 0xff ==> HeadLen(value) <= 2)
    ensures value <= 0xffff ==> HeadLen(value) <= 3
  {
  }

  // ----- what a reader makes of the bytes in front of it

  /** The bytes after the first n. */
  function After(b: Bytes, n: nat): Bytes {
    if n <= |b| then b[n..] else []
  }

  function ParseTake(b: Bytes, length: nat): Result<Bytes> {
    if length <= |b| then Ok(b[..length]) else Err(Truncated)
  }

  function ParseItem(b: Bytes, major: nat): Result<nat> {
    match ParseHead(b)
    case Err(e) => Err(e)
    case Ok(h) => if h.major == major then Ok(h.value) else Err(WrongType)
  }

  /** A payload no longer than `maximum`; of exactly that length when `fixed`. */
  function ParsePayload(b: Bytes, kind: nat, maximum: nat, fixed: bool): Result<Bytes> {
    match ParseItem(b, kind)
    case Err(e) => Err(e)
    case Ok(length) =>
      if length > maximum || (fixed && length != maximum) then Err(TooLarge)
      else if |b| < HeadLen(length) + length then Err(Truncated)
      else Ok(b[HeadLen(length)..HeadLen(length) + length])
  }

  function ParseRequired(b: Bytes, major: nat, expected: nat): Result<()> {
    match ParseItem(b, major)
    case Err(e) => Err(e)
    case Ok(value) => if value == expected then Ok(()) else Err(WrongType)
  }

  function ParseCount(b: Bytes, major: nat, maximum: nat): Result<nat> {
    match ParseItem(b, major)
    case Err(e) => Err(e)
    case Ok(value) => if value > maximum then Err(TooLarge) else Ok(value)
  }

  function ParseInt(b: Bytes): Result<int> {
    match ParseHead(b)
    case Err(e) => Err(e)
    case Ok(h) =>
      if h.major != UNSIGNED && h.major != NEGATIVE then Err(WrongType)
      else if h.value >= I64 then Err(TooLarge)
      else Ok(if h.major == UNSIGNED then h.value else -1 - h.value)
  }

  function ParseText(b: Bytes, maximum: nat, utf8: Bytes -> bool): Result<Bytes> {
    match ParsePayload(b, TEXT, maximum, false)
    case Err(e) => Err(e)
    case Ok(bytes) => if utf8(bytes) then Ok(bytes) else Err(NotUtf8)
  }

  function ParseNull(b: Bytes): Result<()> {
    if b == [] then Err(Truncated) else if b[0] == NULL then Ok(()) else Err(WrongType)
  }

  /** An item is read exactly when its shortest encoding is in front. */
  lemma ItemExact(b: Bytes, major: nat, value: nat)
    requires major < 7
    ensures ParseItem(b, major) == Ok(value) <==> value < U64 && HeadBytes(major, value) <= b
  {
    hide ParseHead, HeadBytes;
    if ParseItem(b, major) == Ok(value) { HeadOfParse(b); }
    if value < U64 && HeadBytes(major, value) <= b {
      var rest := b[|HeadBytes(major, value)|..];
      assert b == HeadBytes(major, value) + rest;
      ParseOfHead(major, value, rest);
    }
  }

  /** A signed integer is read exactly when it is within 64 bits and its item is in front. */
  lemma IntExact(b: Bytes, v: int)
    ensures ParseInt(b) == Ok(v) <==> -I64 <= v < I64 && TokenBytes(Int(v)) <= b
  {
    hide ParseHead, HeadBytes;
    if ParseHead(b).Ok? { HeadOfParse(b); }
    if -I64 <= v < I64 { ItemExact(b, Int(v).major, Int(v).value); }
  }

  lemma PayloadExact(b: Bytes, kind: nat, maximum: nat, fixed: bool, bytes: Bytes)
    requires kind < 7 && maximum < U64
    ensures ParsePayload(b, kind, maximum, fixed) == Ok(bytes)
        <==> |bytes| <= maximum && (fixed ==> |bytes| == maximum) && HeadBytes(kind, |bytes|) + bytes <= b
  {
    hide ParseItem, HeadBytes, HeadLen;
    var parsed := ParseItem(b, kind);
    if parsed.Ok? { ItemExact(b, kind, parsed.value); }
    if |bytes| <= maximum {
      ItemExact(b, kind, |bytes|);
      var n := HeadLen(|bytes|);
      if HeadBytes(kind, |bytes|) + bytes <= b {
        assert HeadBytes(kind, |bytes|) <= b;
        assert b[n..n + |bytes|] == bytes;
      }
      if parsed == Ok(|bytes|) && n + |bytes| <= |b| && b[n..n + |bytes|] == bytes {
        assert b[..n + |bytes|] == HeadBytes(kind, |bytes|) + bytes;
      }
    }
  }

  /** Text is read exactly when it is within the bound, valid, and its item is in front. */
  lemma TextExact(b: Bytes, maximum: nat, utf8: Bytes -> bool, text: Bytes)
    requires maximum < U64
    ensures ParseText(b, maximum, utf8) == Ok(text)
        <==> |text| <= maximum && utf8(text) && TokenBytes(TextString(text)) <= b
  {
    hide ParsePayload, HeadBytes;
    PayloadExact(b, TEXT, maximum, false, text);
  }

  class Reader {
    const input: Bytes
    var offset: nat

    constructor (input: Bytes)
      ensures Valid() && Rest() == input
    {
      this.input := input;
      offset := 0;
    }

    ghost predicate Valid()
      reads this
    {
      offset <= |input|
    }

    /** The input from the offset on. */
    function Rest(): Bytes
      reads this
    {
      After(input, offset)
    }

    method Take(length: nat) returns (r: Result<Bytes>)
      requires Valid()
      modifies this
      ensures Valid() && r == ParseTake(old(Rest()), length)
      ensures Rest() == if r.Ok? then After(old(Rest()), length) else old(Rest())
    {
      var end := offset + length;
      if end > |input| { return Err(Truncated); }
      assert Rest()[..length] == input[offset..end];
      r := Ok(input[offset..end]);
      offset := end;
    }

    method ReadHead() returns (r: Result<Head>)
      requires Valid()
      modifies this
      ensures Valid() && r == ParseHead(old(Rest()))
      ensures r.Ok? ==> Rest() == After(old(Rest()), HeadLen(r.value.value))
    {
      ghost var b := Rest();
      var one :- Take(1);
      var first := one[0];
      var major, additional := first / 32, first % 32;
      var width := Announced(additional);
      if width.None? { return Err(Malformed); }
      var value := additional;
      if width.value != 0 {
        var fixed :- Take(width.value);
        assert fixed == b[1..1 + width.value];
        value := Num(fixed);
      }
      if value < Floor(width.value) { return Err(NonCanonical); }
      SameWidth(b);
      return Ok(Head(major, value));
    }

    /** One head of the type asked for. */
    method TypedHead(expected: nat) returns (r: Result<nat>)
      requires Valid()
      modifies this
      ensures Valid() && r == ParseItem(old(Rest()), expected)
      ensures r.Ok? ==> Rest() == After(old(Rest()), HeadLen(r.value))
    {
      hide ParseHead, HeadLen, After;
      var h :- ReadHead();
      if h.major != expected { return Err(WrongType); }
      return Ok(h.value);
    }

    method ReadUint() returns (r: Result<nat>)
      requires Valid()
      modifies this
      ensures Valid() && r == ParseItem(old(Rest()), UNSIGNED)
      ensures r.Ok? ==> Rest() == After(old(Rest()), HeadLen(r.value))
    {
      r := TypedHead(UNSIGNED);
    }

    /** An integer item, negative or not. */
    method ReadInt() returns (r: Result<int>)
      requires Valid()
      modifies this
      ensures Valid() && r == ParseInt(old(Rest()))
      ensures r.Ok? ==> Rest() == After(old(Rest()), HeadLen(Int(r.value).value))
    {
      hide ParseHead, HeadLen, After;
      var h :- ReadHead();
      if h.major != UNSIGNED && h.major != NEGATIVE { return Err(WrongType); }
      if h.value >= I64 { return Err(TooLarge); }
      return Ok(if h.major == UNSIGNED then h.value else -1 - h.value);
    }

    /** A head whose value is fixed: a map key, or the size of an array or map. */
    method Require(major: nat, expected: nat) returns (r: Result<()>)
      requires Valid()
      modifies this
      ensures Valid() && r == ParseRequired(old(Rest()), major, expected)
      ensures r.Ok? ==> Rest() == After(old(Rest()), HeadLen(expected))
    {
      hide ParseItem, HeadLen, After;
      var value :- TypedHead(major);
      return if value == expected then Ok(()) else Err(WrongType);
    }

    method Key(expected: nat) returns (r: Result<()>)
      requires Valid()
      modifies this
      ensures Valid() && r == ParseRequired(old(Rest()), UNSIGNED, expected)
      ensures r.Ok? ==> Rest() == After(old(Rest()), HeadLen(expected))
    {
      r := Require(UNSIGNED, expected);
    }

    /** The size of an array or map, bounded. */
    method Count(major: nat, maximum: nat) returns (r: Result<nat>)
      requires Valid()
      modifies this
      ensures Valid() && r == ParseCount(old(Rest()), major, maximum)
      ensures r.Ok? ==> Rest() == After(old(Rest()), HeadLen(r.value))
    {
      hide ParseItem, HeadLen, After;
      var value :- TypedHead(major);
      return if value > maximum then Err(TooLarge) else Ok(value);
    }

    /** A length-prefixed payload no longer than `maximum`; of exactly that length when `fixed`. */
    method ReadPayload(kind: nat, maximum: nat, fixed: bool) returns (r: Result<Bytes>)
      requires Valid()
      modifies this
      ensures Valid() && r == ParsePayload(old(Rest()), kind, maximum, fixed)
      ensures r.Ok? ==> Rest() == After(old(Rest()), HeadLen(|r.value|) + |r.value|)
    {
      ghost var b := Rest();
      PayloadParts(b, kind, maximum, fixed);
      hide HeadLen, ParseItem, ParsePayload, ParseTake, After;
      var length :- TypedHead(kind);
      if length > maximum { return Err(TooLarge); }
      if fixed && length != maximum { return Err(TooLarge); }
      r := Take(length);
    }

    method FixedBytes(n: nat) returns (r: Result<Bytes>)
      requires Valid()
      modifies this
      ensures Valid() && r == ParsePayload(old(Rest()), BYTES, n, true)
      ensures r.Ok? ==> Rest() == After(old(Rest()), HeadLen(n) + n)
    {
      r := ReadPayload(BYTES, n, true);
    }

    method ReadText(maximum: nat, utf8: Bytes -> bool) returns (r: Result<Bytes>)
      requires Valid()
      modifies this
      ensures Valid() && r == ParseText(old(Rest()), maximum, utf8)
      ensures r.Ok? ==> Rest() == After(old(Rest()), HeadLen(|r.value|) + |r.value|)
    {
      hide ParsePayload, HeadLen, After;
      var bytes :- ReadPayload(TEXT, maximum, false);
      return if utf8(bytes) then Ok(bytes) else Err(NotUtf8);
    }

    /** Looks for null in front; the reader stays where it is. */
    method PeekNull() returns (r: bool)
      requires Valid()
      ensures r == ParseNull(Rest()).Ok?
    {
      r := offset < |input| && input[offset] == NULL;
    }

    method ReadNull() returns (r: Result<()>)
      requires Valid()
      modifies this
      ensures Valid() && r == ParseNull(old(Rest()))
      ensures r.Ok? ==> Rest() == After(old(Rest()), 1)
    {
      var one :- Take(1);
      if one[0] != NULL { return Err(WrongType); }
      return Ok(());
    }

    /** Requires that nothing follows. */
    method Finish() returns (r: Result<()>)
      requires Valid()
      ensures r == if Rest() == [] then Ok(()) else Err(Trailing)
    {
      return if offset == |input| then Ok(()) else Err(Trailing);
    }
  }

  /** A payload is its head, and then so many bytes taken. */
  lemma PayloadParts(b: Bytes, kind: nat, maximum: nat, fixed: bool)
    ensures ParsePayload(b, kind, maximum, fixed) ==
            match ParseItem(b, kind)
            case Err(e) => Err(e)
            case Ok(length) =>
              if length > maximum || (fixed && length != maximum) then Err(TooLarge)
              else ParseTake(After(b, HeadLen(length)), length)
    ensures ParsePayload(b, kind, maximum, fixed).Ok? ==>
              var length := |ParsePayload(b, kind, maximum, fixed).value|;
              && ParseItem(b, kind) == Ok(length)
              && After(After(b, HeadLen(length)), length) == After(b, HeadLen(length) + length)
  {
    hide HeadLen, ParseHead;
    var item := ParseItem(b, kind);
    if item.Ok? {
      ItemFits(b, kind);
      var head, length := HeadLen(item.value), item.value;
      if head + length <= |b| { assert After(b, head)[..length] == b[head..head + length]; }
    }
  }

  lemma ItemFits(b: Bytes, major: nat)
    requires ParseItem(b, major).Ok?
    ensures HeadLen(ParseItem(b, major).value) <= |b|
  {
    hide ParseHead, HeadLen;
    HeadOfParse(b);
  }

  lemma SameWidth(b: Bytes)
    requires ParseHead(b).Ok?
    ensures Announced(b[0] % 32).Some? && Width(ParseHead(b).value.value) == Announced(b[0] % 32).value
  {
    hide Span, Num, Big;
    var width := Announced(b[0] % 32).value;
    if width != 0 {
      BigNum(b[1..1 + width]);
      WidthUnique(width, ParseHead(b).value.value);
    }
  }

  // ----- the encoder

  class Writer {
    var out: Bytes
    ghost var written: seq<Token>

    constructor ()
      ensures Valid() && written == []
    {
      out := [];
      written := [];
    }

    ghost predicate Valid()
      reads this
    {
      AllLegal(written) && out == Flatten(written)
    }

    /** Appends the shortest head. */
    method Head(major: nat, value: nat)
      requires major < 8 && value < U64
      modifies this`out
      ensures out == old(out) + HeadBytes(major, value)
    {
      hide Big;
      var tag := 32 * major;
      if value <= 23 {
        out := out + [tag + value];
      } else if value <= 0xff {
        OneByte(value);
        out := out + ([tag + 24] + [value]);
      } else if value <= 0xffff {
        out := out + ([tag + 25] + Big(value, 2));
      } else if value <= 0xffff_ffff {
        out := out + ([tag + 26] + Big(value, 4));
      } else {
        out := out + ([tag + 27] + Big(value, 8));
      }
    }

    method PutItem(major: nat, value: nat)
      requires Valid() && major < 7 && value < U64
      modifies this
      ensures Valid() && written == old(written) + [Item(major, value)]
    {
      hide Flatten, HeadBytes;
      FlattenAppend(written, Item(major, value));
      Head(major, value);
      written := written + [Item(major, value)];
    }

    method PutUint(value: nat)
      requires Valid() && value < U64
      modifies this
      ensures Valid() && written == old(written) + [Uint(value)]
    {
      PutItem(UNSIGNED, value);
    }

    method PutInt(value: int)
      requires Valid() && -I64 <= value < I64
      modifies this
      ensures Valid() && written == old(written) + [Int(value)]
    {
      if value < 0 { PutItem(NEGATIVE, -value - 1); } else { PutItem(UNSIGNED, value); }
    }

    method PutPayload(kind: nat, bytes: Bytes)
      requires Valid() && kind < 7 && |bytes| < U64
      modifies this
      ensures Valid() && written == old(written) + [Payload(kind, bytes)]
    {
      hide Flatten, HeadBytes;
      FlattenAppend(written, Payload(kind, bytes));
      Head(kind, |bytes|);
      out := out + bytes;
      written := written + [Payload(kind, bytes)];
    }

    method PutNull()
      requires Valid()
      modifies this
      ensures Valid() && written == old(written) + [Null]
    {
      hide Flatten;
      FlattenAppend(written, Null);
      out := out + [NULL];
      written := written + [Null];
    }
  }

  lemma OneByte(value: nat)
    requires value < 256
    ensures Big(value, 1) == [value]
  {
    assert Big(value / 256, 0) == [];
  }
}
