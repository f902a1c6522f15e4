/** How the full parser refuses what is not quite the built catalog. */
module CatalogRefusals {
  import opened Hashing
  import opened CatalogFormat
  import opened Catalog
  import opened CatalogParser

  function Own(suite: nat, data: Bytes): Identity {
    Identity(suite, Root(suite, data), |data|)
  }

  /** Under any other identity a built catalog is a mismatch, whatever the
      verifier holds. */
  lemma OtherIdentity(view: View, suite: nat, data: Bytes, expected: Identity, ctx: Context)
    requires KnownSuite(suite) && |data| <= MAX_OBJECT_LENGTH && expected != Own(suite, data)
    requires |ctx.data| == expected.length
    ensures FullOutcome(view, CatalogBytes(suite, data), expected, ctx) == IdentityMismatch
  {
    hide Root, BlobTo, IndexTo, Records, Zeros, PackHeader, ReadHeader, CatalogBytes, ScanEntries, VerifyRecords;
    BuiltOpens(view, suite, data);
    OwnFields(suite, data);
  }

  lemma OwnFields(suite: nat, data: Bytes)
    requires KnownSuite(suite) && |data| <= MAX_OBJECT_LENGTH
    ensures var h := CatalogHeader(suite, data);
            && h.suite == suite && h.root == Root(suite, data) && h.objectLength == |data|
            && h.magic == MAGIC && h.headerLength == HEADER_LENGTH && h.flags == 0 && h.version == 0 && h.profile == PROFILE
            && h.reserved == 0 && h.tail == Zeros(16)
  {
    hide Root, BlobTo, Records, Zeros;
  }

  /** Every proper prefix is not there yet. */
  lemma PrefixUnavailable(view: View, suite: nat, data: Bytes, n: nat)
    requires KnownSuite(suite) && |data| <= MAX_OBJECT_LENGTH && n < |CatalogBytes(suite, data)|
    ensures FullOutcome(view, CatalogBytes(suite, data)[..n], Own(suite, data), Context(suite, data)) == Unavailable
  {
    hide Root, BlobTo, IndexTo, Records, Zeros, PackHeader, ReadHeader, CatalogBytes, CatalogHeader, HeaderOutcome,
      ScanEntries, VerifyRecords;
    BuiltOpens(view, suite, data);
    var blob := CatalogBytes(suite, data);
    if n >= HEADER_LENGTH { assert blob[..n][..HEADER_LENGTH] == blob[..HEADER_LENGTH]; }
  }

  /** Anything after its end is malformed. */
  lemma TrailingMalformed(view: View, suite: nat, data: Bytes, extra: Bytes)
    requires KnownSuite(suite) && |data| <= MAX_OBJECT_LENGTH && extra != []
    ensures FullOutcome(view, CatalogBytes(suite, data) + extra, Own(suite, data), Context(suite, data)) == Malformed
  {
    hide Root, BlobTo, IndexTo, Records, Zeros, PackHeader, ReadHeader, CatalogBytes, CatalogHeader, HeaderOutcome,
      ScanEntries, VerifyRecords;
    BuiltOpens(view, suite, data);
    var blob := CatalogBytes(suite, data);
    assert (blob + extra)[..HEADER_LENGTH] == blob[..HEADER_LENGTH];
  }

  /** Any change behind the index, and only there, is an invalid proof. */
  lemma ChangedProof(view: View, suite: nat, data: Bytes, blob: Bytes)
    requires KnownSuite(suite) && |data| <= MAX_OBJECT_LENGTH
    requires |blob| == |CatalogBytes(suite, data)| && blob != CatalogBytes(suite, data)
    requires var front := HEADER_LENGTH + ENTRY_LENGTH * Records(|data|);
             front <= |blob| && blob[..front] == CatalogBytes(suite, data)[..front]
    ensures FullOutcome(view, blob, Own(suite, data), Context(suite, data)) == ProofInvalid
  {
    hide Root, RecordProof, BlobTo, IndexTo, Records, Zeros, PackHeader, ReadHeader, CatalogBytes, CatalogHeader,
      HeaderOutcome, ScanEntries, VerifyRecords, EntryAt, FullOutcome;
    var built, h := CatalogBytes(suite, data), CatalogHeader(suite, data);
    var front := HEADER_LENGTH + ENTRY_LENGTH * Records(|data|);
    BuiltOpens(view, suite, data);
    BuiltIsAccepted(view, suite, data);
    AcceptedParts(view, built, Own(suite, data), Context(suite, data));
    HeaderLaid(h, Own(suite, data));
    HeaderProofLength(suite, data);
    BlobNone(suite, data);
    assert blob[..HEADER_LENGTH] == blob[..front][..HEADER_LENGTH] == built[..HEADER_LENGTH];
    SameScan(view, blob, built, h, 0, 0);
    RestExact(view, blob, h, suite, data, 0);
    BuiltTail(suite, data);
    assert blob == blob[..front] + blob[front..] && built == built[..front] + built[front..];
    if BuiltFrom(view, blob, h, suite, data, 0) { BlobIs(view, blob, h, suite, data, h.count); }
    VerifyAnswers(view, blob, h, Context(suite, data), 0);
    ScannedOutcome(view, blob, Own(suite, data), Context(suite, data));
  }

  lemma BuiltTail(suite: nat, data: Bytes)
    requires KnownSuite(suite) && |data| <= MAX_OBJECT_LENGTH
    ensures var front := HEADER_LENGTH + ENTRY_LENGTH * Records(|data|);
            && front <= |CatalogBytes(suite, data)|
            && CatalogBytes(suite, data)[front..] == BlobTo(suite, data, Records(|data|))
  {
    hide Root, BlobTo, IndexTo, Records, PackHeader, CatalogHeader;
    BuiltHeaderLength(suite, data);
    IndexSize(suite, data, Records(|data|));
  }

  lemma ScannedOutcome(view: View, blob: Bytes, expected: Identity, ctx: Context)
    requires |ctx.data| == expected.length && |blob| >= HEADER_LENGTH
    requires var h := ReadHeader(view, blob[..HEADER_LENGTH]);
             HeaderOutcome(h, expected) == Accepted && |blob| == h.catalogLength
    requires var h := ReadHeader(view, blob[..HEADER_LENGTH]);
             Laid(h) && h.objectLength == expected.length && ScanEntries(view, blob, h, 0, 0) == Accepted
    ensures FullOutcome(view, blob, expected, ctx) == VerifyRecords(view, blob, ReadHeader(view, blob[..HEADER_LENGTH]), ctx, 0)
  {
    hide HeaderOutcome, ReadHeader, ScanEntries, VerifyRecords, Laid;
  }

  /** The scan looks at the index and nothing behind it. */
  lemma {:induction false} SameScan(view: View, a: Bytes, b: Bytes, h: Header, i: nat, relative: nat)
    requires Laid(h) && |a| == |b| == h.catalogLength && i <= h.count && a[..h.proofOffset] == b[..h.proofOffset]
    ensures ScanEntries(view, a, h, i, relative) == ScanEntries(view, b, h, i, relative)
    decreases h.count - i
  {
    hide Records, ReadEntry;
    if i < h.count {
      var start := h.indexOffset + i * ENTRY_LENGTH;
      assert a[start..start + ENTRY_LENGTH] == a[..h.proofOffset][start..start + ENTRY_LENGTH];
      assert b[start..start + ENTRY_LENGTH] == b[..h.proofOffset][start..start + ENTRY_LENGTH];
      var e := EntryAt(view, a, h, i);
      SameScan(view, a, b, h, i + 1, e.relative + e.length);
    }
  }

  lemma {:induction false} VerifyAnswers(view: View, blob: Bytes, h: Header, ctx: Context, i: nat)
    requires Laid(h) && |blob| == h.catalogLength && i <= h.count && |ctx.data| == h.objectLength
    ensures VerifyRecords(view, blob, h, ctx, i) in {Accepted, ProofInvalid}
    decreases h.count - i
  {
    hide Records, EntryAt, RecordAccepted, ProofAt;
    if i < h.count { VerifyAnswers(view, blob, h, ctx, i + 1); }
  }

  /** A built header with one field changed: what the change is answered with. */
  lemma ChangedField(suite: nat, data: Bytes, h: Header)
    requires KnownSuite(suite) && |data| <= MAX_OBJECT_LENGTH && h != CatalogHeader(suite, data)
    ensures var own := CatalogHeader(suite, data);
            var outcome := HeaderOutcome(h, Own(suite, data));
            && (h in {own.(magic := h.magic), own.(headerLength := h.headerLength), own.(flags := h.flags)} ==>
                  outcome == Malformed)
            && (h in {own.(version := h.version), own.(profile := h.profile)} ==> outcome == Unsupported)
            && (h == own.(suite := h.suite) ==> outcome == if KnownSuite(h.suite) then IdentityMismatch else Unsupported)
            && (h in {own.(reserved := h.reserved), own.(tail := h.tail)} ==> outcome == Malformed)
            && (h == own.(root := h.root) ==> outcome == IdentityMismatch)
            && (h == own.(objectLength := h.objectLength) ==>
                  outcome == if h.objectLength > MAX_OBJECT_LENGTH then Malformed else IdentityMismatch)
            && (h in {own.(count := h.count), own.(indexOffset := h.indexOffset)} ==> outcome == Malformed)
            && (h in {own.(indexLength := h.indexLength), own.(proofOffset := h.proofOffset)} ==> outcome == Malformed)
            && (h in {own.(proofLength := h.proofLength), own.(catalogLength := h.catalogLength)} ==> outcome == Malformed)
  {
    CatalogFits(suite, data);
    hide Root, BlobTo, Records, Zeros;
  }

  /** The first 24 bytes of every built catalog, and its last reserved ones. */
  lemma FirstBytes(suite: nat, data: Bytes)
    requires suite in {1, 2} && |data| <= MAX_OBJECT_LENGTH
    ensures |CatalogBytes(suite, data)| >= 128
    ensures var b := CatalogBytes(suite, data);
            && b[..8] == [Octet(0x56), Octet(0x4f), Octet(0x54), Octet(0x50), Octet(0x43), Octet(0x41), Octet(0x54), Octet(0)]
            && b[8..10] == Field(0, 2) && b[10..12] == Field(128, 2) && b[12..16] == Field(0, 4)
            && b[16..18] == Field(suite, 2) && b[18..20] == Field(1, 2) && b[20..24] == Field(0, 4)
            && b[112..128] == seq(16, _ => Octet(0))
  {
    hide Root, BlobTo, IndexTo, Records, PackHeader, Field, CatalogHeader;
    CatalogFits(suite, data);
    OwnFields(suite, data);
    var h := CatalogHeader(suite, data);
    HeaderLayout(h);
    var front, rest := PackHeader(h), IndexTo(suite, data, Records(|data|)) + BlobTo(suite, data, Records(|data|));
    assert CatalogBytes(suite, data) == front + rest;
    FrontPart(front, rest, 0, 8); FrontPart(front, rest, 8, 10); FrontPart(front, rest, 10, 12); FrontPart(front, rest, 12, 16);
    FrontPart(front, rest, 16, 18); FrontPart(front, rest, 18, 20); FrontPart(front, rest, 20, 24); FrontPart(front, rest, 112, 128);
  }

  lemma FrontPart(a: Bytes, b: Bytes, lo: nat, hi: nat)
    requires lo <= hi <= |a|
    ensures (a + b)[lo..hi] == a[lo..hi]
  {
  }

  // ----- random access

  /** What a random-access read answers, whatever the storage gives it behind an
      honest header. */
  lemma SelectedExactly(view: View, read: Reader, storageLength: nat, suite: nat, data: Bytes, ordinal: int)
    requires suite in {1, 2} && |data| <= MAX_OBJECT_LENGTH
    requires |CatalogBytes(suite, data)| >= 128 && read(0, 128) == CatalogBytes(suite, data)[..128]
    ensures var outcome := SelectedRun(view, read, storageLength, Own(suite, data), ordinal, Context(suite, data)).outcome;
            if storageLength < |CatalogBytes(suite, data)| then outcome == Unavailable
            else if storageLength > |CatalogBytes(suite, data)| || ordinal < 0 || ordinal >= Records(|data|) then outcome == Malformed
            else outcome == EntryAnswer(view, read, suite, data, ordinal)
  {
    hide Root, BlobTo, IndexTo, Records, PackHeader, ReadHeader, CatalogBytes, CatalogHeader, HeaderOutcome, EntryRun, EntryAnswer;
    BuiltOpens(view, suite, data);
    var h := CatalogHeader(suite, data);
    HeaderLaid(h, Own(suite, data));
    LaidParts(h);
    if 0 <= ordinal < h.count { EntryAnswered(view, read, suite, data, ordinal, [(0, HEADER_LENGTH)]); }
  }

  lemma LaidParts(h: Header)
    requires Laid(h)
    ensures h.count == Records(h.objectLength) && h.proofOffset == 128 + 16 * h.count
    ensures h.catalogLength == h.proofOffset + h.proofLength
  {
    hide Records;
  }

  /** The entry as read, then the proof it names. */
  ghost function EntryAnswer(view: View, read: Reader, suite: nat, data: Bytes, ordinal: nat): Outcome
    requires suite in {1, 2} && |data| <= MAX_OBJECT_LENGTH && ordinal < Records(|data|)
  {
    var bytes := read(128 + 16 * ordinal, 16);
    if |bytes| != 16 then Unavailable else
    var e := ReadEntry(view, bytes);
    if e.reserved != 0 || e.length > 8192 || e.length % 32 != 0 || e.relative + e.length > CatalogHeader(suite, data).proofLength
    then Malformed else
    var proof := read(128 + 16 * Records(|data|) + e.relative, e.length);
    if |proof| != e.length then Unavailable
    else if proof == RecordProof(suite, data, ordinal) then Accepted else ProofInvalid
  }

  lemma EntryAnswered(view: View, read: Reader, suite: nat, data: Bytes, ordinal: nat, trace: seq<(nat, nat)>)
    requires suite in {1, 2} && |data| <= MAX_OBJECT_LENGTH && ordinal < Records(|data|)
    requires var h := CatalogHeader(suite, data);
             Laid(h) && h.suite == suite && h.root == Root(suite, data) && h.objectLength == |data| && h.count == Records(|data|)
    ensures EntryRun(view, read, CatalogHeader(suite, data), ordinal, Context(suite, data), trace).outcome
         == EntryAnswer(view, read, suite, data, ordinal)
  {
    hide Root, RecordProof, BlobTo, Records, ReadEntry, RecordAccepted, CatalogHeader;
    var h := CatalogHeader(suite, data);
    var bytes := read(128 + 16 * ordinal, 16);
    if |bytes| == 16 {
      var e := ReadEntry(view, bytes);
      RecordExact(suite, data, ordinal, read(h.proofOffset + e.relative, e.length));
    }
  }
}
