/** The static proof catalog's bytes: big-endian fields, the 128-byte header
    and the 16-byte index entry. */
module CatalogFormat {
  import opened Wrappers
  import opened BigEndian
  import opened Powers
  import opened Hashing

  const HEADER_LENGTH := 128
  const ENTRY_LENGTH := 16
  const PROFILE := 1
  const RANGE_LENGTH := 4194304
  const MAX_PROOF_LENGTH := 8192
  const MAX_OBJECT_LENGTH := 0x7FFF_FFFF_FFFF_FFFF
  const MAX_RECORDS := 0x200_0000_0000
  const MAX_INDEX_LENGTH := 0x2000_0000_0000
  const MAX_PROOF_BLOB_LENGTH := 0x40_0000_0000_0000
  const MAX_CATALOG_LENGTH := HEADER_LENGTH + MAX_INDEX_LENGTH + MAX_PROOF_BLOB_LENGTH
  const U64_MAX := 0xFFFF_FFFF_FFFF_FFFF

  /** "VOTPCAT" and a zero byte. */
  const MAGIC: Bytes := [Octet(0x56), Octet(0x4f), Octet(0x54), Octet(0x50), Octet(0x43), Octet(0x41), Octet(0x54), Octet(0)]

  // ----- integers

  /** The number a digest byte happens to be. Nothing below depends on it. */
  type View = (Term, nat) -> octet

  function Value(view: View, c: Cell): octet {
    match c
    case Octet(v) => v
    case Digest(t, i) => view(t, i)
  }

  /** v as a field of n plain bytes. */
  function Field(v: nat, n: nat): (r: Bytes)
    ensures |r| == n
  {
    var b := Big(v, n);
    seq(n, i requires 0 <= i < n => Octet(b[i]))
  }

  /** The number a field holds. */
  function Number(view: View, b: Bytes): nat {
    Num(Values(view, b))
  }

  function Values(view: View, b: Bytes): (r: seq<octet>)
    ensures |r| == |b|
  {
    seq(|b|, i requires 0 <= i < |b| => Value(view, b[i]))
  }

  predicate Plain(b: Bytes) {
    forall i :: 0 <= i < |b| ==> b[i].Octet?
  }

  lemma NumberField(view: View, v: nat, n: nat)
    requires v < Span(n)
    ensures Number(view, Field(v, n)) == v && Plain(Field(v, n))
  {
    hide Big, Num, Span;
    NumBig(v, n);
    assert Values(view, Field(v, n)) == Big(v, n);
  }

  lemma FieldNumber(view: View, b: Bytes)
    requires Plain(b)
    ensures Field(Number(view, b), |b|) == b && Number(view, b) < Span(|b|)
  {
    hide Big, Num, Span;
    BigNum(Values(view, b));
    assert Field(Number(view, b), |b|) == b;
  }

  function CheckedAdd(left: nat, right: nat): (r: Option<nat>)
    ensures r.Some? <==> left + right <= U64_MAX
  {
    if left + right > U64_MAX then None else Some(left + right)
  }

  function CheckedMul(left: nat, right: nat): (r: Option<nat>)
    ensures r.Some? <==> left * right <= U64_MAX
  {
    if left * right > U64_MAX then None else Some(left * right)
  }

  // ----- fields

  /** A field at its offset: what stands there, and what follows. */
  lemma FieldAt(b: Bytes, offset: nat, part: Bytes, rest: Bytes)
    requires offset <= |b| && b[offset..] == part + rest
    ensures offset + |part| <= |b| && b[offset..offset + |part|] == part && b[offset + |part|..] == rest
  {
    assert |b| - offset == |part| + |rest|;
    assert b[offset..][..|part|] == part && b[offset..][|part|..] == rest;
  }

  lemma Rejoin(b: Bytes, lo: nat, hi: nat)
    requires lo <= hi <= |b|
    ensures b[lo..] == b[lo..hi] + b[hi..]
  {
  }

  // ----- the header

  datatype Header = Header(
    magic: Bytes, version: nat, headerLength: nat, flags: nat, suite: nat, profile: nat, reserved: nat, root: Bytes,
    objectLength: nat, count: nat, indexOffset: nat, indexLength: nat, proofOffset: nat, proofLength: nat,
    catalogLength: nat, tail: Bytes)

  /** Each field fits its width. */
  ghost predicate Packable(h: Header) {
    && |h.magic| == 8 && |h.root| == HASH && |h.tail| == 16
    && h.version < 0x1_0000 && h.headerLength < 0x1_0000 && h.suite < 0x1_0000 && h.profile < 0x1_0000
    && h.flags < 0x1_0000_0000 && h.reserved < 0x1_0000_0000
    && h.objectLength <= U64_MAX && h.count <= U64_MAX && h.indexOffset <= U64_MAX && h.indexLength <= U64_MAX
    && h.proofOffset <= U64_MAX && h.proofLength <= U64_MAX && h.catalogLength <= U64_MAX
  }

  function HeaderTail(h: Header): Bytes {
    Field(h.objectLength, 8) + (Field(h.count, 8) + (Field(h.indexOffset, 8) + (Field(h.indexLength, 8)
    + (Field(h.proofOffset, 8) + (Field(h.proofLength, 8) + (Field(h.catalogLength, 8) + h.tail))))))
  }

  function PackHeader(h: Header): Bytes {
    h.magic + (Field(h.version, 2) + (Field(h.headerLength, 2) + (Field(h.flags, 4) + (Field(h.suite, 2)
    + (Field(h.profile, 2) + (Field(h.reserved, 4) + (h.root + HeaderTail(h))))))))
  }

  function ReadHeader(view: View, b: Bytes): Header
    requires |b| == HEADER_LENGTH
  {
    Header(b[0..8], Number(view, b[8..10]), Number(view, b[10..12]), Number(view, b[12..16]),
      Number(view, b[16..18]), Number(view, b[18..20]), Number(view, b[20..24]), b[24..56],
      Number(view, b[56..64]), Number(view, b[64..72]), Number(view, b[72..80]), Number(view, b[80..88]),
      Number(view, b[88..96]), Number(view, b[96..104]), Number(view, b[104..112]), b[112..128])
  }

  /** Where each field of a header lies. */
  lemma HeaderLayout(h: Header)
    requires Packable(h)
    ensures var b := PackHeader(h);
            && |b| == 128 && b[0..8] == h.magic && b[8..10] == Field(h.version, 2) && b[10..12] == Field(h.headerLength, 2)
            && b[12..16] == Field(h.flags, 4) && b[16..18] == Field(h.suite, 2) && b[18..20] == Field(h.profile, 2)
            && b[20..24] == Field(h.reserved, 4) && b[24..56] == h.root && b[56..64] == Field(h.objectLength, 8)
            && b[64..72] == Field(h.count, 8) && b[72..80] == Field(h.indexOffset, 8) && b[80..88] == Field(h.indexLength, 8)
            && b[88..96] == Field(h.proofOffset, 8) && b[96..104] == Field(h.proofLength, 8)
            && b[104..112] == Field(h.catalogLength, 8) && b[112..128] == h.tail
  {
    hide Field;
    var b := PackHeader(h);
    assert b[0..] == b;
    FieldAt(b, 0, h.magic, Field(h.version, 2) + (Field(h.headerLength, 2) + (Field(h.flags, 4) + (Field(h.suite, 2) + (Field(h.profile, 2) + (Field(h.reserved, 4) + (h.root + HeaderTail(h))))))));
    FieldAt(b, 8, Field(h.version, 2), Field(h.headerLength, 2) + (Field(h.flags, 4) + (Field(h.suite, 2) + (Field(h.profile, 2) + (Field(h.reserved, 4) + (h.root + HeaderTail(h)))))));
    FieldAt(b, 10, Field(h.headerLength, 2), Field(h.flags, 4) + (Field(h.suite, 2) + (Field(h.profile, 2) + (Field(h.reserved, 4) + (h.root + HeaderTail(h))))));
    FieldAt(b, 12, Field(h.flags, 4), Field(h.suite, 2) + (Field(h.profile, 2) + (Field(h.reserved, 4) + (h.root + HeaderTail(h)))));
    FieldAt(b, 16, Field(h.suite, 2), Field(h.profile, 2) + (Field(h.reserved, 4) + (h.root + HeaderTail(h))));
    FieldAt(b, 18, Field(h.profile, 2), Field(h.reserved, 4) + (h.root + HeaderTail(h)));
    FieldAt(b, 20, Field(h.reserved, 4), h.root + HeaderTail(h));
    FieldAt(b, 24, h.root, HeaderTail(h));
    FieldAt(b, 56, Field(h.objectLength, 8), Field(h.count, 8) + (Field(h.indexOffset, 8) + (Field(h.indexLength, 8) + (Field(h.proofOffset, 8) + (Field(h.proofLength, 8) + (Field(h.catalogLength, 8) + h.tail))))));
    FieldAt(b, 64, Field(h.count, 8), Field(h.indexOffset, 8) + (Field(h.indexLength, 8) + (Field(h.proofOffset, 8) + (Field(h.proofLength, 8) + (Field(h.catalogLength, 8) + h.tail)))));
    FieldAt(b, 72, Field(h.indexOffset, 8), Field(h.indexLength, 8) + (Field(h.proofOffset, 8) + (Field(h.proofLength, 8) + (Field(h.catalogLength, 8) + h.tail))));
    FieldAt(b, 80, Field(h.indexLength, 8), Field(h.proofOffset, 8) + (Field(h.proofLength, 8) + (Field(h.catalogLength, 8) + h.tail)));
    FieldAt(b, 88, Field(h.proofOffset, 8), Field(h.proofLength, 8) + (Field(h.catalogLength, 8) + h.tail));
    FieldAt(b, 96, Field(h.proofLength, 8), Field(h.catalogLength, 8) + h.tail);
    FieldAt(b, 104, Field(h.catalogLength, 8), h.tail);
    assert b[112..] == b[112..128];
  }

  /** Reading a packed header gives its fields back. */
  lemma ReadPackedHeader(view: View, h: Header)
    requires Packable(h)
    ensures |PackHeader(h)| == HEADER_LENGTH && ReadHeader(view, PackHeader(h)) == h
  {
    Spans();
    hide Field, Number, Span, PackHeader;
    HeaderLayout(h);
    NumberField(view, h.version, 2);
    NumberField(view, h.headerLength, 2);
    NumberField(view, h.flags, 4);
    NumberField(view, h.suite, 2);
    NumberField(view, h.profile, 2);
    NumberField(view, h.reserved, 4);
    NumberField(view, h.objectLength, 8);
    NumberField(view, h.count, 8);
    NumberField(view, h.indexOffset, 8);
    NumberField(view, h.indexLength, 8);
    NumberField(view, h.proofOffset, 8);
    NumberField(view, h.proofLength, 8);
    NumberField(view, h.catalogLength, 8);
  }

  /** The integer fields are plain bytes. */
  ghost predicate PlainHeader(b: Bytes)
    requires |b| == HEADER_LENGTH
  {
    Plain(b[8..24]) && Plain(b[56..112])
  }

  lemma PlainPart(b: Bytes, lo: nat, hi: nat, l: nat, h: nat)
    requires lo <= l <= h <= hi <= |b| && Plain(b[lo..hi])
    ensures Plain(b[l..h])
  {
    forall i | 0 <= i < h - l ensures b[l..h][i].Octet? { assert b[l..h][i] == b[lo..hi][l - lo + i]; }
  }

  lemma IntField(view: View, b: Bytes, lo: nat, hi: nat, l: nat, h: nat)
    requires lo <= l <= h <= hi <= |b| && Plain(b[lo..hi])
    ensures Field(Number(view, b[l..h]), h - l) == b[l..h] && b[l..] == b[l..h] + b[h..]
  {
    PlainPart(b, lo, hi, l, h);
    FieldNumber(view, b[l..h]);
    Rejoin(b, l, h);
  }

  lemma PackReadTail(view: View, b: Bytes)
    requires |b| == HEADER_LENGTH && PlainHeader(b)
    ensures HeaderTail(ReadHeader(view, b)) == b[56..]
  {
    hide Field, Number;
    assert b[112..] == b[112..128];
    IntField(view, b, 56, 112, 104, 112);
    IntField(view, b, 56, 112, 96, 104);
    IntField(view, b, 56, 112, 88, 96);
    IntField(view, b, 56, 112, 80, 88);
    IntField(view, b, 56, 112, 72, 80);
    IntField(view, b, 56, 112, 64, 72);
    IntField(view, b, 56, 112, 56, 64);
  }

  /** Packing a read header gives the bytes back. */
  lemma PackReadHeader(view: View, b: Bytes)
    requires |b| == HEADER_LENGTH && PlainHeader(b)
    ensures PackHeader(ReadHeader(view, b)) == b
  {
    PackReadTail(view, b);
    hide Field, Number, HeaderTail;
    assert b[0..] == b;
    Rejoin(b, 24, 56);
    IntField(view, b, 8, 24, 20, 24);
    IntField(view, b, 8, 24, 18, 20);
    IntField(view, b, 8, 24, 16, 18);
    IntField(view, b, 8, 24, 12, 16);
    IntField(view, b, 8, 24, 10, 12);
    IntField(view, b, 8, 24, 8, 10);
    Rejoin(b, 0, 8);
  }

  // ----- index entries

  datatype Entry = Entry(relative: nat, length: nat, reserved: nat)

  function PackEntry(e: Entry): Bytes {
    Field(e.relative, 8) + (Field(e.length, 4) + Field(e.reserved, 4))
  }

  function ReadEntry(view: View, b: Bytes): Entry
    requires |b| == ENTRY_LENGTH
  {
    Entry(Number(view, b[0..8]), Number(view, b[8..12]), Number(view, b[12..16]))
  }

  /** Where each field of an entry lies. */
  lemma EntryLayout(e: Entry)
    ensures var b := PackEntry(e);
            |b| == 16 && b[0..8] == Field(e.relative, 8) && b[8..12] == Field(e.length, 4) && b[12..16] == Field(e.reserved, 4)
  {
    hide Field;
  }

  lemma ReadPackedEntry(view: View, e: Entry)
    requires e.relative <= U64_MAX && e.length < 0x1_0000_0000 && e.reserved < 0x1_0000_0000
    ensures |PackEntry(e)| == ENTRY_LENGTH && ReadEntry(view, PackEntry(e)) == e
  {
    Spans();
    hide Field, Number, Span;
    var b := PackEntry(e);
    assert b[0..] == b;
    FieldAt(b, 0, Field(e.relative, 8), Field(e.length, 4) + Field(e.reserved, 4));
    FieldAt(b, 8, Field(e.length, 4), Field(e.reserved, 4));
    assert b[12..] == b[12..16];
    NumberField(view, e.relative, 8); NumberField(view, e.length, 4); NumberField(view, e.reserved, 4);
  }

  lemma PackReadEntry(view: View, b: Bytes)
    requires |b| == ENTRY_LENGTH && Plain(b)
    ensures PackEntry(ReadEntry(view, b)) == b
  {
    hide Field, Number;
    assert b[0..16] == b && b[0..] == b && b[12..] == b[12..16];
    IntField(view, b, 0, 16, 12, 16); IntField(view, b, 0, 16, 8, 12); IntField(view, b, 0, 16, 0, 8);
  }

  // ----- geometry

  /** Record count and index length of an object, or a refusal above the maximum. */
  function Geometry(length: nat): (r: Option<(nat, nat)>)
    ensures r.Some? <==> length <= MAX_OBJECT_LENGTH
    ensures r.Some? ==> r.value == (Records(length), ENTRY_LENGTH * Records(length))
    ensures r.Some? ==> r.value.0 <= MAX_RECORDS && r.value.1 <= MAX_INDEX_LENGTH
  {
    if length > MAX_OBJECT_LENGTH then None else
      var count := Records(length);
      match CheckedMul(count, ENTRY_LENGTH)
      case None => None
      case Some(indexLength) =>
        if count > MAX_RECORDS || indexLength > MAX_INDEX_LENGTH then None else Some((count, indexLength))
  }

  function Records(length: nat): nat {
    length / RANGE_LENGTH + (if length % RANGE_LENGTH != 0 then 1 else 0)
  }

  /** Bytes of the object that record `ordinal` covers. */
  function RecordLength(length: nat, ordinal: nat): nat
    requires ordinal < Records(length)
  {
    var rest := length - ordinal * RANGE_LENGTH;
    if rest < RANGE_LENGTH then rest else RANGE_LENGTH
  }

  /** A field's bytes are its value's, the most significant first. */
  lemma FieldBytes(v: nat, n: nat)
    requires n > 0 && v < Span(n)
    ensures Field(v, n) != [] && Field(v, n)[0] == Octet(v / Span(n - 1)) && Field(v, n)[n - 1] == Octet(v % 256)
  {
    hide Span;
    NumBig(v, n);
    BigFirst(v, n);
    BigStep(v, n);
  }

  lemma BigFirst(v: nat, n: nat)
    requires n > 0 && v < Span(n)
    ensures Span(n - 1) > 0 && v / Span(n - 1) < 256 && Big(v, n)[0] == v / Span(n - 1)
  {
    hide Big, Num, Span;
    var b := Big(v, n);
    NumBig(v, n);
    MostSignificantFirst(b);
    BigNum(b[1..]);
    Commutes(b[0], Span(n - 1));
    DivideOut(Num(b[1..]), Span(n - 1), b[0]);
  }

  lemma Commutes(a: nat, b: nat)
    ensures a * b == b * a
  {
  }

  /** The maxima are what the longest object needs, and no more. */
  lemma MaximaTight()
    ensures MAX_OBJECT_LENGTH == 0x7FFF_FFFF_FFFF_FFFF && Records(MAX_OBJECT_LENGTH) == MAX_RECORDS
    ensures MAX_INDEX_LENGTH == 16 * MAX_RECORDS && MAX_PROOF_BLOB_LENGTH == 8192 * MAX_RECORDS
    ensures MAX_CATALOG_LENGTH == 128 + MAX_INDEX_LENGTH + MAX_PROOF_BLOB_LENGTH <= U64_MAX
  {
  }
}
