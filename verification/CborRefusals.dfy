/** What the reader makes of items that are not quite what was asked for, and
    the encodings the standard lists. */
module CborRefusals {
  import opened BigEndian
  import opened Cbor

  // ----- heads

  /** Every proper prefix of a head is truncated, never malformed. */
  lemma TruncatedHead(major: nat, value: nat, n: nat)
    requires major < 8 && value < U64 && n < |HeadBytes(major, value)|
    ensures ParseHead(HeadBytes(major, value)[..n]) == Err(Truncated)
  {
    hide Big, Num, Width, Announced;
    FirstByte(major, value);
    if n > 0 { assert HeadBytes(major, value)[..n][0] == HeadBytes(major, value)[0]; }
  }

  /** A head wider than its value needs. */
  function WideHead(major: nat, value: nat, width: nat): Bytes
    requires major < 8 && width in {1, 2, 4, 8}
  {
    [32 * major + Additional(width)] + Big(value, width)
  }

  /** A wider head than the value needs is not canonical, whatever follows it. */
  lemma WiderRefused(major: nat, value: nat, width: nat, rest: Bytes)
    requires major < 8 && width in {1, 2, 4, 8} && Width(value) < width
    ensures ParseHead(WideHead(major, value, width) + rest) == Err(NonCanonical)
  {
    Spans();
    hide Big, Num, Span;
    var b := WideHead(major, value, width) + rest;
    NumBig(value, width);
    assert b[0] == 32 * major + Additional(width);
    assert b[1..1 + width] == Big(value, width);
  }

  /** Reserved additional information is malformed, however much follows. */
  lemma ReservedMalformed(b: Bytes)
    requires b != [] && b[0] % 32 in {28, 29, 30, 31}
    ensures ParseHead(b) == Err(Malformed)
  {
  }

  // ----- items

  /** An item of another type is the wrong type, not a guess. */
  lemma WrongTypeReported(major: nat, value: nat, rest: Bytes, asked: nat, maximum: nat)
    requires major < 8 && value < U64 && asked != major
    ensures var b := HeadBytes(major, value) + rest;
            && ParseItem(b, asked) == Err(WrongType) && ParseCount(b, asked, maximum) == Err(WrongType)
            && ParseRequired(b, asked, value) == Err(WrongType)
            && ParsePayload(b, asked, maximum, false) == Err(WrongType)
            && (major != UNSIGNED && major != NEGATIVE ==> ParseInt(b) == Err(WrongType))
  {
    hide ParseHead, HeadBytes;
    ParseOfHead(major, value, rest);
  }

  /** A bound admits its own maximum and refuses one past it; a required value
      refuses every other; a signed integer stops at 64 bits. */
  lemma BoundsExact(major: nat, value: nat, rest: Bytes, maximum: nat)
    requires major < 8 && value < U64
    ensures var b := HeadBytes(major, value) + rest;
            && ParseCount(b, major, maximum) == (if value <= maximum then Ok(value) else Err(TooLarge))
            && ParseRequired(b, major, maximum) == (if value == maximum then Ok(()) else Err(WrongType))
            && (major == UNSIGNED ==> ParseInt(b) == if value < 0x8000_0000_0000_0000 then Ok(value) else Err(TooLarge))
            && (major == NEGATIVE ==> ParseInt(b) == if value < 0x8000_0000_0000_0000 then Ok(-1 - value) else Err(TooLarge))
  {
    hide ParseHead, HeadBytes;
    ParseOfHead(major, value, rest);
  }

  /** A payload past its bound, or not of the length asked for, is too large; one
      cut short is truncated; text that is not UTF-8 is its own refusal. */
  lemma PayloadRefusals(kind: nat, bytes: Bytes, rest: Bytes, maximum: nat, utf8: Bytes -> bool)
    requires kind < 7 && |bytes| < U64
    ensures var b := HeadBytes(kind, |bytes|) + bytes + rest;
            && ParsePayload(b, kind, maximum, false) == (if |bytes| <= maximum then Ok(bytes) else Err(TooLarge))
            && ParsePayload(b, kind, maximum, true) == (if |bytes| == maximum then Ok(bytes) else Err(TooLarge))
            && (kind == TEXT && |bytes| <= maximum ==>
                  ParseText(b, maximum, utf8) == if utf8(bytes) then Ok(bytes) else Err(NotUtf8))
  {
    hide ParseHead, HeadBytes, HeadLen;
    ParseOfHead(kind, |bytes|, bytes + rest);
    var head, b := HeadBytes(kind, |bytes|), HeadBytes(kind, |bytes|) + bytes + rest;
    assert b == head + (bytes + rest);
    assert b[|head|..|head| + |bytes|] == bytes;
  }

  lemma TruncatedPayload(kind: nat, bytes: Bytes, maximum: nat, n: nat)
    requires kind < 7 && |bytes| <= maximum && |bytes| < U64 && n < |bytes|
    ensures ParsePayload(HeadBytes(kind, |bytes|) + bytes[..n], kind, maximum, false) == Err(Truncated)
  {
    hide ParseHead, HeadBytes, HeadLen;
    ParseOfHead(kind, |bytes|, bytes[..n]);
  }

  /** Null is one byte, and nothing else reads as null. */
  lemma NullExact(b: Bytes)
    ensures ParseNull(b) == if b == [] then Err(Truncated) else if b[0] == 0xf6 then Ok(()) else Err(WrongType)
  {
  }

  // ----- the encodings of appendix A of RFC 8949

  lemma ShortEncodings()
    ensures TokenBytes(Uint(0)) == [0x00] && TokenBytes(Uint(23)) == [0x17] && TokenBytes(Int(-1)) == [0x20]
    ensures TokenBytes(Array(3)) == [0x83] && TokenBytes(Map(2)) == [0xa2] && TokenBytes(Null) == [0xf6]
    ensures TokenBytes(ByteString([1, 2, 3, 4])) == [0x44, 0x01, 0x02, 0x03, 0x04]
    ensures TokenBytes(TextString([0x61])) == [0x61, 0x61]
  {
    hide Big;
  }

  lemma LongEncodings()
    ensures TokenBytes(Uint(24)) == [0x18, 0x18] && TokenBytes(Uint(1000)) == [0x19, 0x03, 0xe8]
    ensures TokenBytes(Int(-1000)) == [0x39, 0x03, 0xe7]
    ensures TokenBytes(Uint(1_000_000)) == [0x1a, 0x00, 0x0f, 0x42, 0x40]
    ensures TokenBytes(Uint(1_000_000_000_000)) == [0x1b, 0x00, 0x00, 0x00, 0xe8, 0xd4, 0xa5, 0x10, 0x00]
  {
    hide Big, Num;
    BigOne(0x18);
    BigTwo(0x03, 0xe8);
    BigTwo(0x03, 0xe7);
    BigFour(0x00, 0x0f, 0x42, 0x40);
    BigEight(0x00, 0x00, 0x00, 0xe8, 0xd4, 0xa5, 0x10, 0x00);
  }

  lemma BigOne(a: octet)
    ensures Num([a]) == a && Big(a, 1) == [a]
  {
    hide Big, Num;
    MostSignificantFirst([a]);
    assert [a][1..] == [] && Span(0) == 1;
    BigNone(0);
    BigNum([a]);
  }

  lemma BigTwo(a: octet, b: octet)
    ensures Num([a, b]) == 0x100 * a + b && Big(0x100 * a + b, 2) == [a, b]
  {
    hide Big, Num;
    MostSignificantFirst([a, b]);
    BigOne(b);
    BigNum([a, b]);
  }

  lemma BigFour(a: octet, b: octet, c: octet, d: octet)
    ensures Num([a, b, c, d]) == 0x100_0000 * a + 0x1_0000 * b + 0x100 * c + d
    ensures Big(0x100_0000 * a + 0x1_0000 * b + 0x100 * c + d, 4) == [a, b, c, d]
  {
    hide Big, Num;
    MostSignificantFirst([a, b, c, d]);
    MostSignificantFirst([b, c, d]);
    assert [a, b, c, d][1..] == [b, c, d] && [b, c, d][1..] == [c, d];
    BigTwo(c, d);
    BigNum([a, b, c, d]);
    assert Span(3) == 0x100_0000 && Span(2) == 0x1_0000;
  }

  lemma BigEight(a: octet, b: octet, c: octet, d: octet, e: octet, f: octet, g: octet, h: octet)
    ensures Big(0x100_0000_0000_0000 * a + 0x1_0000_0000_0000 * b + 0x100_0000_0000 * c + 0x1_0000_0000 * d
                + 0x100_0000 * e + 0x1_0000 * f + 0x100 * g + h, 8) == [a, b, c, d, e, f, g, h]
  {
    hide Big, Num;
    var all := [a, b, c, d, e, f, g, h];
    assert all[1..] == [b, c, d, e, f, g, h] && all[1..][1..] == [c, d, e, f, g, h];
    assert [c, d, e, f, g, h][1..] == [d, e, f, g, h] && [d, e, f, g, h][1..] == [e, f, g, h];
    MostSignificantFirst(all);
    MostSignificantFirst([b, c, d, e, f, g, h]);
    MostSignificantFirst([c, d, e, f, g, h]);
    MostSignificantFirst([d, e, f, g, h]);
    BigFour(e, f, g, h);
    LongSpans();
    hide Span;
    BigNum(all);
  }

  lemma LongSpans()
    ensures Span(4) == 0x1_0000_0000 && Span(5) == 0x100_0000_0000
    ensures Span(6) == 0x1_0000_0000_0000 && Span(7) == 0x100_0000_0000_0000
  {
    assert Span(3) == 0x100_0000;
  }
}
