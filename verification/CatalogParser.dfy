/** The whole catalog: what is built, what the full parser accepts, and what a
    random-access read of one record sees. */
module CatalogParser {
  import opened Wrappers
  import opened Hashing
  import opened CatalogFormat
  import opened Catalog
  import BlakeTree
  import BlakeRange
  import ShaTree
  import ShaRange

  // ----- building

  /** The proofs of the first n records, end to end. */
  function BlobTo(suite: nat, data: Bytes, n: nat): Bytes
    requires n <= Records(|data|)
  {
    if n == 0 then [] else BlobTo(suite, data, n - 1) + RecordProof(suite, data, n - 1)
  }

  function EntryFor(suite: nat, data: Bytes, i: nat): Entry
    requires i < Records(|data|)
  {
    Entry(|BlobTo(suite, data, i)|, |RecordProof(suite, data, i)|, 0)
  }

  function IndexTo(suite: nat, data: Bytes, n: nat): Bytes
    requires n <= Records(|data|)
  {
    if n == 0 then [] else IndexTo(suite, data, n - 1) + PackEntry(EntryFor(suite, data, n - 1))
  }

  function CatalogHeader(suite: nat, data: Bytes): Header {
    var count := Records(|data|);
    var proofOffset := HEADER_LENGTH + ENTRY_LENGTH * count;
    var proofLength := |BlobTo(suite, data, count)|;
    Header(MAGIC, 0, HEADER_LENGTH, 0, suite, PROFILE, 0, Root(suite, data), |data|, count,
           HEADER_LENGTH, ENTRY_LENGTH * count, proofOffset, proofLength, proofOffset + proofLength, Zeros(16))
  }

  /** The catalog of an object. */
  function CatalogBytes(suite: nat, data: Bytes): Bytes {
    var count := Records(|data|);
    PackHeader(CatalogHeader(suite, data)) + IndexTo(suite, data, count) + BlobTo(suite, data, count)
  }

  lemma {:induction false} BlobSize(suite: nat, data: Bytes, n: nat)
    requires KnownSuite(suite) && |data| <= MAX_OBJECT_LENGTH && n <= Records(|data|)
    ensures |BlobTo(suite, data, n)| <= MAX_PROOF_LENGTH * n
  {
    hide RecordProof, Records;
    if n > 0 {
      BlobSize(suite, data, n - 1);
      RecordSize(suite, data, n - 1);
    }
  }

  lemma {:induction false} BlobGrows(suite: nat, data: Bytes, m: nat, n: nat)
    requires m <= n <= Records(|data|)
    ensures |BlobTo(suite, data, m)| <= |BlobTo(suite, data, n)|
    decreases n
  {
    hide RecordProof, Records;
    if m < n {
      BlobGrows(suite, data, m, n - 1);
    }
  }

  lemma {:induction false} IndexSize(suite: nat, data: Bytes, n: nat)
    requires n <= Records(|data|)
    ensures |IndexTo(suite, data, n)| == ENTRY_LENGTH * n
  {
    hide RecordProof, Field, Records;
    if n > 0 {
      IndexSize(suite, data, n - 1);
    }
  }

  /** Every catalog stays within its format's maxima, and every field fits. */
  lemma CatalogFits(suite: nat, data: Bytes)
    requires KnownSuite(suite) && |data| <= MAX_OBJECT_LENGTH
    ensures var h := CatalogHeader(suite, data);
            && Packable(h) && h.count <= MAX_RECORDS && h.indexLength <= MAX_INDEX_LENGTH
            && h.proofLength <= MAX_PROOF_BLOB_LENGTH && h.catalogLength <= MAX_CATALOG_LENGTH
  {
    hide BlobTo, Root, Zeros;
    var g := Geometry(|data|);
    BlobSize(suite, data, Records(|data|));
    RootLength(suite, data);
    hide Records;
    assert |Zeros(16)| == 16;
  }

  lemma RootLength(suite: nat, data: Bytes)
    ensures |Root(suite, data)| == HASH
  {
    hide ShaTree.Reduce, ShaTree.Leaf, ShaTree.TreeWidth, BlakeTree.Blake3Hash;
    if suite != 1 && data != [] {
      ShaTree.ReduceLength(ShaTree.Leaves(data, ShaTree.TreeWidth(ShaTree.LeafCount(|data|))));
    }
  }

  method Prove(suite: nat, data: Bytes, ordinal: nat) returns (proof: Bytes)
    requires ordinal < Records(|data|)
    ensures proof == RecordProof(suite, data, ordinal)
  {
    hide BlakeRange.RangeProof, ShaRange.Proof, ShaTree.Layer, BlakeRange.FirstGroup, BlakeRange.EndGroup;
    RecordRange(|data|, ordinal);
    var offset, length := Offset(ordinal), RecordLength(|data|, ordinal);
    if suite == 1 {
      proof := BlakeRange.Prove(data, offset, length);
    } else {
      var count := ShaTree.PieceCount(|data|);
      if count == 1 { return []; }
      proof := ShaRange.Prove(ShaTree.Layer(data), count, BlakeRange.FirstGroup(offset), BlakeRange.EndGroup(offset, length));
    }
  }

  /** `build_catalog`. None of its size assertions can fail. */
  method BuildCatalog(suite: nat, data: Bytes) returns (catalog: Option<Bytes>)
    ensures catalog == if suite in {1, 2} && |data| <= 0x7FFF_FFFF_FFFF_FFFF then Some(CatalogBytes(suite, data)) else None
  {
    hide RecordProof, Field, Root, Zeros, PackEntry, PackHeader;
    var g := Geometry(|data|);
    if g.None? || !KnownSuite(suite) { return None; }
    var (count, indexLength) := g.value;
    var blob: Bytes, index: Bytes := [], [];
    for ordinal := 0 to count
      invariant blob == BlobTo(suite, data, ordinal) && index == IndexTo(suite, data, ordinal)
    {
      var proof := Prove(suite, data, ordinal);
      RecordSize(suite, data, ordinal);
      assert |proof| <= MAX_PROOF_LENGTH && |proof| % 32 == 0;
      index := index + PackEntry(Entry(|blob|, |proof|, 0));
      blob := blob + proof;
    }
    var proofOffset := HEADER_LENGTH + indexLength;
    var catalogLength := proofOffset + |blob|;
    CatalogFits(suite, data);
    assert |blob| <= MAX_PROOF_BLOB_LENGTH;
    assert catalogLength <= MAX_CATALOG_LENGTH;
    var header := PackHeader(Header(MAGIC, 0, HEADER_LENGTH, 0, suite, PROFILE, 0, Root(suite, data), |data|, count,
                                    HEADER_LENGTH, indexLength, proofOffset, |blob|, catalogLength, Zeros(16)));
    catalog := Some(header + index + blob);
  }

  // ----- the header checks both parsers make

  function HeaderOutcome(h: Header, expected: Identity): Outcome {
    if h.magic != MAGIC || h.headerLength != HEADER_LENGTH || h.flags != 0 then Malformed
    else if h.version != 0 || !KnownSuite(h.suite) || h.profile != PROFILE then Unsupported
    else if h.reserved != 0 || h.tail != Zeros(16) || h.objectLength > MAX_OBJECT_LENGTH then Malformed
    else if Identity(h.suite, h.root, h.objectLength) != expected then IdentityMismatch
    else
      match Geometry(h.objectLength)
      case None => Malformed
      case Some((count, indexLength)) =>
        match (CheckedAdd(HEADER_LENGTH, indexLength), CheckedAdd(h.proofOffset, h.proofLength))
        case (Some(proofOffset), Some(catalogLength)) =>
          if h.count != count || h.indexOffset != HEADER_LENGTH || h.indexLength != indexLength
             || h.proofOffset != proofOffset || h.proofLength > MAX_PROOF_BLOB_LENGTH
             || h.catalogLength != catalogLength || h.catalogLength > MAX_CATALOG_LENGTH
          then Malformed else Accepted
        case (_, _) => Malformed
  }

  /** What accepted header checks leave known. */
  ghost predicate Laid(h: Header) {
    && KnownSuite(h.suite) && h.count == Records(h.objectLength) && h.objectLength <= MAX_OBJECT_LENGTH
    && h.indexOffset == HEADER_LENGTH && h.proofOffset == HEADER_LENGTH + ENTRY_LENGTH * h.count
    && h.catalogLength == h.proofOffset + h.proofLength <= MAX_CATALOG_LENGTH
  }

  lemma HeaderLaid(h: Header, expected: Identity)
    requires HeaderOutcome(h, expected) == Accepted
    ensures Laid(h) && Identity(h.suite, h.root, h.objectLength) == expected
  {
    hide Records, Zeros;
  }

  // ----- the full parser

  function EntryAt(view: View, blob: Bytes, h: Header, i: nat): Entry
    requires Laid(h) && |blob| == h.catalogLength && i < h.count
  {
    hide Records;
    var start := h.indexOffset + i * ENTRY_LENGTH;
    ReadEntry(view, blob[start..start + ENTRY_LENGTH])
  }

  predicate EntrySound(e: Entry) {
    e.reserved == 0 && e.length <= MAX_PROOF_LENGTH && e.length % 32 == 0
  }

  function ScanEntries(view: View, blob: Bytes, h: Header, i: nat, relative: nat): Outcome
    requires Laid(h) && |blob| == h.catalogLength && i <= h.count
    decreases h.count - i
  {
    if i == h.count then (if relative == h.proofLength then Accepted else Malformed) else
      var e := EntryAt(view, blob, h, i);
      if !EntrySound(e) || e.relative != relative then Malformed
      else
        match CheckedAdd(e.relative, e.length)
        case None => Malformed
        case Some(end) => if end > h.proofLength then Malformed else ScanEntries(view, blob, h, i + 1, end)
  }

  function ProofAt(blob: Bytes, h: Header, e: Entry): Bytes {
    Slice(blob, h.proofOffset + e.relative, h.proofOffset + e.relative + e.length)
  }

  function VerifyRecords(view: View, blob: Bytes, h: Header, ctx: Context, i: nat): Outcome
    requires Laid(h) && |blob| == h.catalogLength && i <= h.count && |ctx.data| == h.objectLength
    decreases h.count - i
  {
    if i == h.count then Accepted
    else if RecordAccepted(h.suite, h.root, i, ProofAt(blob, h, EntryAt(view, blob, h, i)), ctx)
    then VerifyRecords(view, blob, h, ctx, i + 1)
    else ProofInvalid
  }

  function FullOutcome(view: View, blob: Bytes, expected: Identity, ctx: Context): Outcome
    requires |ctx.data| == expected.length
  {
    if |blob| < HEADER_LENGTH then Unavailable else
      var h := ReadHeader(view, blob[..HEADER_LENGTH]);
      if HeaderOutcome(h, expected) != Accepted then HeaderOutcome(h, expected)
      else if |blob| < h.catalogLength then Unavailable
      else if |blob| != h.catalogLength then Malformed
      else
        HeaderLaid(h, expected);
        var scan := ScanEntries(view, blob, h, 0, 0);
        if scan != Accepted then scan else VerifyRecords(view, blob, h, ctx, 0)
  }

  /** `parse_and_verify`. */
  method ParseAndVerify(view: View, blob: Bytes, expected: Identity, ctx: Context) returns (outcome: Outcome)
    requires |ctx.data| == expected.length
    ensures outcome == FullOutcome(view, blob, expected, ctx)
  {
    hide HeaderOutcome, RecordAccepted, ReadHeader, Records;
    if |blob| < HEADER_LENGTH { return Unavailable; }
    var h := ReadHeader(view, blob[..HEADER_LENGTH]);
    if HeaderOutcome(h, expected) != Accepted { return HeaderOutcome(h, expected); }
    if |blob| < h.catalogLength { return Unavailable; }
    if |blob| != h.catalogLength { return Malformed; }
    HeaderLaid(h, expected);
    var entries := ScanIndex(view, blob, h);
    if entries.None? { return Malformed; }
    outcome := VerifyEach(view, blob, h, entries.value, ctx);
  }

  /** The index, entry by entry, each proof following the one before it. */
  method ScanIndex(view: View, blob: Bytes, h: Header) returns (r: Option<seq<Entry>>)
    requires Laid(h) && |blob| == h.catalogLength
    ensures ScanEntries(view, blob, h, 0, 0) == if r.Some? then Accepted else Malformed
    ensures r.Some? ==>
              |r.value| == h.count && forall j :: 0 <= j < h.count ==> r.value[j] == EntryAt(view, blob, h, j)
  {
    hide EntryAt, Laid, EntrySound;
    var entries: seq<Entry> := [];
    var relative: nat := 0;
    for i := 0 to h.count
      invariant |entries| == i && forall j :: 0 <= j < i ==> entries[j] == EntryAt(view, blob, h, j)
      invariant ScanEntries(view, blob, h, 0, 0) == ScanEntries(view, blob, h, i, relative)
    {
      var e := EntryAt(view, blob, h, i);
      if !EntrySound(e) || e.relative != relative { return None; }
      var end := CheckedAdd(e.relative, e.length);
      if end.None? || end.value > h.proofLength { return None; }
      entries := entries + [e];
      relative := end.value;
    }
    if relative != h.proofLength { return None; }
    r := Some(entries);
  }

  /** Every record's proof, in order. */
  method VerifyEach(view: View, blob: Bytes, h: Header, entries: seq<Entry>, ctx: Context) returns (outcome: Outcome)
    requires Laid(h) && |blob| == h.catalogLength && |ctx.data| == h.objectLength
    requires |entries| == h.count && forall j :: 0 <= j < h.count ==> entries[j] == EntryAt(view, blob, h, j)
    ensures outcome == VerifyRecords(view, blob, h, ctx, 0)
  {
    hide RecordAccepted, Records, EntryAt;
    for i := 0 to h.count
      invariant VerifyRecords(view, blob, h, ctx, 0) == VerifyRecords(view, blob, h, ctx, i)
    {
      var ok := VerifyRecord(h.suite, h.root, i, ProofAt(blob, h, entries[i]), ctx);
      if !ok { return ProofInvalid; }
    }
    outcome := Accepted;
  }

  // ----- random access

  /** What a random-access read of one record did: its verdict, the reads it
      made, and the proof bytes it got. */
  datatype Selected = Selected(outcome: Outcome, trace: seq<(nat, nat)>, proof: Bytes)

  type Reader = (nat, nat) -> Bytes

  /** `parse_and_verify_selected`. */
  function SelectedRun(view: View, read: Reader, storageLength: nat, expected: Identity, ordinal: int, ctx: Context): Selected
    requires |ctx.data| == expected.length
  {
    var headerBytes := read(0, HEADER_LENGTH);
    var trace := [(0, HEADER_LENGTH)];
    if |headerBytes| != HEADER_LENGTH then Selected(Unavailable, trace, []) else
      var h := ReadHeader(view, headerBytes);
      if HeaderOutcome(h, expected) != Accepted then Selected(HeaderOutcome(h, expected), trace, [])
      else if storageLength < h.catalogLength then Selected(Unavailable, trace, [])
      else if storageLength != h.catalogLength || ordinal < 0 || ordinal >= h.count then Selected(Malformed, trace, [])
      else
        HeaderLaid(h, expected);
        EntryRun(view, read, h, ordinal, ctx, trace)
  }

  function EntryRun(view: View, read: Reader, h: Header, ordinal: nat, ctx: Context, trace0: seq<(nat, nat)>): Selected
    requires Laid(h) && |ctx.data| == h.objectLength && ordinal < h.count
  {
    match CheckedMul(ordinal, ENTRY_LENGTH)
    case None => Selected(Malformed, trace0, [])
    case Some(delta) =>
      match CheckedAdd(h.indexOffset, delta)
      case None => Selected(Malformed, trace0, [])
      case Some(entryStart) =>
        match CheckedAdd(entryStart, ENTRY_LENGTH)
        case None => Selected(Malformed, trace0, [])
        case Some(entryEnd) =>
          if entryEnd > h.proofOffset then Selected(Malformed, trace0, []) else
            var entryBytes := read(entryStart, ENTRY_LENGTH);
            var trace := trace0 + [(entryStart, ENTRY_LENGTH)];
            if |entryBytes| != ENTRY_LENGTH then Selected(Unavailable, trace, [])
            else ProofRun(read, h, ReadEntry(view, entryBytes), ordinal, ctx, trace)
  }

  function ProofRun(read: Reader, h: Header, e: Entry, ordinal: nat, ctx: Context, trace0: seq<(nat, nat)>): Selected
    requires Laid(h) && |ctx.data| == h.objectLength && ordinal < h.count
  {
    if !EntrySound(e) then Selected(Malformed, trace0, []) else
      match (CheckedAdd(e.relative, e.length), CheckedAdd(h.proofOffset, e.relative))
      case (Some(relativeEnd), Some(proofStart)) => (
        match CheckedAdd(proofStart, e.length)
        case None => Selected(Malformed, trace0, [])
        case Some(proofEnd) =>
          if relativeEnd > h.proofLength || proofEnd > h.catalogLength then Selected(Malformed, trace0, []) else
            var proof := read(proofStart, e.length);
            var trace := trace0 + [(proofStart, e.length)];
            if |proof| != e.length then Selected(Unavailable, trace, [])
            else if RecordAccepted(h.suite, h.root, ordinal, proof, ctx) then Selected(Accepted, trace, proof)
            else Selected(ProofInvalid, trace, proof))
      case (_, _) => Selected(Malformed, trace0, [])
  }

  /** Storage that returns what it holds. */
  function Stored(blob: Bytes): Reader {
    (offset: nat, length: nat) => Slice(blob, offset, offset + length)
  }

  lemma StoredAt(blob: Bytes, offset: nat, length: nat)
    requires offset + length <= |blob|
    ensures Stored(blob)(offset, length) == blob[offset..offset + length]
  {
    assert Slice(blob, offset, offset + length) == blob[offset..offset + length];
  }

  lemma {:induction false} ScanReaches(view: View, blob: Bytes, h: Header, i: nat, relative: nat, j: nat)
    requires Laid(h) && |blob| == h.catalogLength && i <= j < h.count
    requires ScanEntries(view, blob, h, i, relative) == Accepted
    ensures var e := EntryAt(view, blob, h, j);
            EntrySound(e) && e.relative + e.length <= h.proofLength
    decreases j - i
  {
    hide EntryAt, Records;
    if i < j {
      var e := EntryAt(view, blob, h, i);
      ScanReaches(view, blob, h, i + 1, e.relative + e.length, j);
    }
  }

  lemma {:induction false} VerifyReaches(view: View, blob: Bytes, h: Header, ctx: Context, i: nat, j: nat)
    requires Laid(h) && |blob| == h.catalogLength && i <= j < h.count && |ctx.data| == h.objectLength
    requires VerifyRecords(view, blob, h, ctx, i) == Accepted
    ensures RecordAccepted(h.suite, h.root, j, ProofAt(blob, h, EntryAt(view, blob, h, j)), ctx)
    decreases j - i
  {
    hide EntryAt, Records, RecordAccepted;
    if i < j { VerifyReaches(view, blob, h, ctx, i + 1, j); }
  }

  /** A read that is accepted with the record's proof, and reads only the header,
      its entry and its proof, all inside the catalog. */
  ghost predicate Serves(run: Selected, view: View, blob: Bytes, h: Header, ordinal: nat)
    requires Laid(h) && |blob| == h.catalogLength && ordinal < h.count
  {
    var e := EntryAt(view, blob, h, ordinal);
    && h.proofOffset + e.relative + e.length <= |blob|
    && run == Selected(Accepted, [(0, 128), (128 + 16 * ordinal, 16), (h.proofOffset + e.relative, e.length)],
                       ProofAt(blob, h, e))
  }

  /** Where the full parser accepts, a random-access read of any record accepts
      with the same proof bytes, and reads only the header, that record's entry
      and that record's proof, all inside the catalog. */
  lemma RandomAccess(view: View, blob: Bytes, expected: Identity, ctx: Context, ordinal: nat)
    requires |ctx.data| == expected.length && FullOutcome(view, blob, expected, ctx) == Accepted
    requires ordinal < Records(expected.length)
    ensures |blob| >= HEADER_LENGTH
    ensures var h := ReadHeader(view, blob[..HEADER_LENGTH]);
            && Laid(h) && |blob| == h.catalogLength && h.objectLength == expected.length && ordinal < h.count
            && Serves(SelectedRun(view, Stored(blob), |blob|, expected, ordinal, ctx), view, blob, h, ordinal)
  {
    hide HeaderOutcome, ReadHeader, Records, RecordAccepted, ScanEntries, VerifyRecords, FullOutcome, EntryRun, ProofRun,
      EntryAt, Stored, ProofAt, EntrySound;
    AcceptedParts(view, blob, expected, ctx);
    var h := ReadHeader(view, blob[..HEADER_LENGTH]);
    ScanReaches(view, blob, h, 0, 0, ordinal);
    VerifyReaches(view, blob, h, ctx, 0, ordinal);
    StoredAt(blob, 0, HEADER_LENGTH);
    assert blob[0..HEADER_LENGTH] == blob[..HEADER_LENGTH];
    EntryRunHere(view, blob, h, ordinal, ctx, [(0, HEADER_LENGTH)]);
    ProofRunHere(blob, h, EntryAt(view, blob, h, ordinal), ordinal, ctx,
                 [(0, HEADER_LENGTH), (128 + 16 * ordinal, ENTRY_LENGTH)]);
    assert [(0, HEADER_LENGTH)] + [(128 + 16 * ordinal, ENTRY_LENGTH)]
        == [(0, HEADER_LENGTH), (128 + 16 * ordinal, ENTRY_LENGTH)];
  }

  lemma EntryRunHere(view: View, blob: Bytes, h: Header, ordinal: nat, ctx: Context, trace: seq<(nat, nat)>)
    requires Laid(h) && |ctx.data| == h.objectLength && ordinal < h.count && |blob| == h.catalogLength
    ensures EntryRun(view, Stored(blob), h, ordinal, ctx, trace)
         == ProofRun(Stored(blob), h, EntryAt(view, blob, h, ordinal), ordinal, ctx,
                     trace + [(128 + 16 * ordinal, ENTRY_LENGTH)])
  {
    hide Records, ReadEntry, ProofRun, Stored;
    StoredAt(blob, 128 + 16 * ordinal, ENTRY_LENGTH);
  }

  lemma ProofRunHere(blob: Bytes, h: Header, e: Entry, ordinal: nat, ctx: Context, trace: seq<(nat, nat)>)
    requires Laid(h) && |ctx.data| == h.objectLength && ordinal < h.count && |blob| == h.catalogLength
    requires EntrySound(e) && e.relative + e.length <= h.proofLength
    requires RecordAccepted(h.suite, h.root, ordinal, ProofAt(blob, h, e), ctx)
    ensures ProofRun(Stored(blob), h, e, ordinal, ctx, trace)
         == Selected(Accepted, trace + [(h.proofOffset + e.relative, e.length)], ProofAt(blob, h, e))
  {
    hide Records, RecordAccepted, EntrySound, Stored;
    StoredAt(blob, h.proofOffset + e.relative, e.length);
  }

  /** Whatever the catalog bytes, a random-access read accepted under the
      object's own identity got exactly the prover's proof. */
  lemma SelectedSound(view: View, read: Reader, storageLength: nat, suite: nat, data: Bytes, ordinal: int)
    requires KnownSuite(suite)
    requires SelectedRun(view, read, storageLength, Identity(suite, Root(suite, data), |data|), ordinal,
                         Context(suite, data)).outcome == Accepted
    ensures 0 <= ordinal < Records(|data|)
    ensures SelectedRun(view, read, storageLength, Identity(suite, Root(suite, data), |data|), ordinal,
                        Context(suite, data)).proof == RecordProof(suite, data, ordinal)
  {
    hide HeaderOutcome, ReadHeader, Records, RecordAccepted, ReadEntry, Root, RecordProof;
    var h := ReadHeader(view, read(0, HEADER_LENGTH));
    HeaderLaid(h, Identity(suite, Root(suite, data), |data|));
    var run := SelectedRun(view, read, storageLength, Identity(suite, Root(suite, data), |data|), ordinal, Context(suite, data));
    RecordExact(suite, data, ordinal, run.proof);
  }

  // ----- the accepted catalog is the built catalog

  /** Records from i on are indexed and stored as built. */
  ghost predicate BuiltFrom(view: View, blob: Bytes, h: Header, suite: nat, data: Bytes, i: nat)
    requires Laid(h) && |blob| == h.catalogLength && h.objectLength == |data|
  {
    forall j: nat :: i <= j < h.count ==> RecordBuilt(view, blob, h, suite, data, j)
  }

  ghost predicate RecordBuilt(view: View, blob: Bytes, h: Header, suite: nat, data: Bytes, j: nat)
    requires Laid(h) && |blob| == h.catalogLength && h.objectLength == |data| && j < h.count
  {
    && EntryAt(view, blob, h, j) == EntryFor(suite, data, j)
    && ProofAt(blob, h, EntryFor(suite, data, j)) == RecordProof(suite, data, j)
  }

  lemma ProofAtLength(blob: Bytes, h: Header, e: Entry)
    requires Laid(h) && |blob| == h.catalogLength && e.relative + e.length <= h.proofLength
    ensures |ProofAt(blob, h, e)| == e.length
  {
    hide Records;
    SliceLength(blob, h.proofOffset + e.relative, h.proofOffset + e.relative + e.length);
  }

  /** Scanning and verifying from record i on accepts exactly the built records
      and a proof blob of the built length. */
  lemma {:induction false} RestExact(view: View, blob: Bytes, h: Header, suite: nat, data: Bytes, i: nat)
    requires Laid(h) && |blob| == h.catalogLength && h.objectLength == |data| && i <= h.count
    requires h.suite == suite && h.root == Root(suite, data)
    ensures ScanEntries(view, blob, h, i, |BlobTo(suite, data, i)|) == Accepted &&
            VerifyRecords(view, blob, h, Context(suite, data), i) == Accepted
            <==>
            BuiltFrom(view, blob, h, suite, data, i) && h.proofLength == |BlobTo(suite, data, h.count)|
    decreases h.count - i
  {
    hide Records, EntryAt, RecordAccepted, RecordProof, Root, ProofAt;
    if i < h.count {
      var e, want := EntryAt(view, blob, h, i), EntryFor(suite, data, i);
      RecordSize(suite, data, i);
      RecordExact(suite, data, i, ProofAt(blob, h, e));
      RestExact(view, blob, h, suite, data, i + 1);
      assert |BlobTo(suite, data, i + 1)| == |BlobTo(suite, data, i)| + |RecordProof(suite, data, i)|;
      BlobGrows(suite, data, i + 1, h.count);
      hide BlobTo;
      if e.relative + e.length <= h.proofLength { ProofAtLength(blob, h, e); }
      if BuiltFrom(view, blob, h, suite, data, i) {
        assert RecordBuilt(view, blob, h, suite, data, i);
      }
      if RecordBuilt(view, blob, h, suite, data, i) && BuiltFrom(view, blob, h, suite, data, i + 1) {
        assert BuiltFrom(view, blob, h, suite, data, i);
      }
    }
  }

  lemma {:induction false} IndexPart(suite: nat, data: Bytes, n: nat, j: nat)
    requires j < n <= Records(|data|)
    ensures |IndexTo(suite, data, n)| == 16 * n
    ensures IndexTo(suite, data, n)[16 * j..16 * j + 16] == PackEntry(EntryFor(suite, data, j))
  {
    hide RecordProof, Field, Records;
    IndexSize(suite, data, n);
    IndexSize(suite, data, n - 1);
    if j < n - 1 {
      IndexPart(suite, data, n - 1, j);
    }
  }

  lemma {:induction false} BlobPart(suite: nat, data: Bytes, n: nat, j: nat)
    requires j < n <= Records(|data|)
    ensures |BlobTo(suite, data, j + 1)| <= |BlobTo(suite, data, n)|
    ensures BlobTo(suite, data, n)[|BlobTo(suite, data, j)|..|BlobTo(suite, data, j + 1)|] == RecordProof(suite, data, j)
  {
    hide RecordProof, Records;
    if j < n - 1 {
      BlobPart(suite, data, n - 1, j);
    }
  }

  lemma {:induction false} IndexIs(view: View, blob: Bytes, h: Header, suite: nat, data: Bytes, n: nat)
    requires Laid(h) && |blob| == h.catalogLength && h.objectLength == |data| && n <= h.count
    requires BuiltFrom(view, blob, h, suite, data, 0) && Plain(blob[128..h.proofOffset])
    ensures blob[128..128 + 16 * n] == IndexTo(suite, data, n)
  {
    hide RecordProof, Records, Field, EntryFor, ProofAt;
    if n > 0 {
      IndexIs(view, blob, h, suite, data, n - 1);
      var lo, hi := 128 + 16 * (n - 1), 128 + 16 * n;
      PlainPart(blob, 128, h.proofOffset, lo, hi);
      PackReadEntry(view, blob[lo..hi]);
      assert RecordBuilt(view, blob, h, suite, data, n - 1);
      assert blob[128..hi] == blob[128..lo] + blob[lo..hi];
    }
  }

  lemma {:induction false} BlobIs(view: View, blob: Bytes, h: Header, suite: nat, data: Bytes, n: nat)
    requires Laid(h) && |blob| == h.catalogLength && h.objectLength == |data| && n <= h.count
    requires BuiltFrom(view, blob, h, suite, data, 0) && h.proofLength == |BlobTo(suite, data, h.count)|
    ensures |BlobTo(suite, data, n)| <= h.proofLength
    ensures blob[h.proofOffset..h.proofOffset + |BlobTo(suite, data, n)|] == BlobTo(suite, data, n)
  {
    hide RecordProof, Records, EntryAt;
    BlobGrows(suite, data, n, h.count);
    if n > 0 {
      BlobIs(view, blob, h, suite, data, n - 1);
      assert RecordBuilt(view, blob, h, suite, data, n - 1);
      var lo := h.proofOffset + |BlobTo(suite, data, n - 1)|;
      var hi := h.proofOffset + |BlobTo(suite, data, n)|;
      assert blob[h.proofOffset..hi] == blob[h.proofOffset..lo] + blob[lo..hi];
    }
  }

  /** The header's integer fields and the index are plain bytes, not digests. */
  ghost predicate PlainCatalog(blob: Bytes, count: nat) {
    && (|blob| >= HEADER_LENGTH ==> PlainHeader(blob[..HEADER_LENGTH]))
    && (|blob| >= HEADER_LENGTH + ENTRY_LENGTH * count ==> Plain(blob[HEADER_LENGTH..HEADER_LENGTH + ENTRY_LENGTH * count]))
  }

  lemma BuiltHeaderAccepted(suite: nat, data: Bytes)
    requires KnownSuite(suite) && |data| <= MAX_OBJECT_LENGTH
    ensures HeaderOutcome(CatalogHeader(suite, data), Identity(suite, Root(suite, data), |data|)) == Accepted
  {
    CatalogFits(suite, data);
    hide Root, BlobTo, Records, Zeros;
  }

  /** The header of an accepted catalog with a proof blob of the built length is the built header. */
  lemma AcceptedHeader(h: Header, suite: nat, data: Bytes)
    requires HeaderOutcome(h, Identity(suite, Root(suite, data), |data|)) == Accepted
    requires h.proofLength == |BlobTo(suite, data, Records(|data|))|
    ensures h == CatalogHeader(suite, data)
  {
    hide Root, BlobTo, Records, Zeros;
  }

  lemma BuiltIsAccepted(view: View, suite: nat, data: Bytes)
    requires KnownSuite(suite) && |data| <= MAX_OBJECT_LENGTH
    ensures FullOutcome(view, CatalogBytes(suite, data), Identity(suite, Root(suite, data), |data|), Context(suite, data))
            == Accepted
  {
    hide RecordProof, Root, ReadHeader, HeaderOutcome, CatalogHeader, CatalogBytes, BlobTo, RecordBuilt, ScanEntries,
      VerifyRecords, Records;
    var h, blob := CatalogHeader(suite, data), CatalogBytes(suite, data);
    BuiltOpens(view, suite, data);
    HeaderLaid(h, Identity(suite, Root(suite, data), |data|));
    HeaderProofLength(suite, data);
    BlobNone(suite, data);
    forall j: nat | j < h.count ensures RecordBuilt(view, blob, h, suite, data, j) {
      BuiltRecord(view, suite, data, j);
    }
    RestExact(view, blob, h, suite, data, 0);
  }

  lemma BuiltOpens(view: View, suite: nat, data: Bytes)
    requires KnownSuite(suite) && |data| <= MAX_OBJECT_LENGTH
    ensures var h := CatalogHeader(suite, data);
            && HeaderOutcome(h, Identity(suite, Root(suite, data), |data|)) == Accepted
            && |CatalogBytes(suite, data)| == h.catalogLength >= HEADER_LENGTH
            && ReadHeader(view, CatalogBytes(suite, data)[..HEADER_LENGTH]) == h
  {
    hide Root, BlobTo, IndexTo, Records, Zeros, PackHeader, ReadHeader, Packable, HeaderOutcome;
    CatalogFits(suite, data);
    BuiltHeaderAccepted(suite, data);
    ReadPackedHeader(view, CatalogHeader(suite, data));
    IndexSize(suite, data, Records(|data|));
    assert CatalogBytes(suite, data)[..HEADER_LENGTH] == PackHeader(CatalogHeader(suite, data));
  }

  lemma MiddlePart(a: Bytes, b: Bytes, c: Bytes, lo: nat, hi: nat)
    requires lo <= hi <= |b|
    ensures (a + b + c)[|a| + lo..|a| + hi] == b[lo..hi]
  {
  }

  lemma LastPart(a: Bytes, b: Bytes, lo: nat, hi: nat)
    requires lo <= hi <= |b|
    ensures (a + b)[|a| + lo..|a| + hi] == b[lo..hi]
  {
  }

  lemma BuiltHeaderLength(suite: nat, data: Bytes)
    requires KnownSuite(suite) && |data| <= MAX_OBJECT_LENGTH
    ensures |PackHeader(CatalogHeader(suite, data))| == HEADER_LENGTH
    ensures |BlobTo(suite, data, Records(|data|))| <= MAX_PROOF_BLOB_LENGTH
  {
    hide PackHeader, Packable, CatalogHeader;
    CatalogFits(suite, data);
    ReadPackedHeader((t, i) => 0, CatalogHeader(suite, data));
    HeaderProofLength(suite, data);
  }

  lemma HeaderProofLength(suite: nat, data: Bytes)
    ensures CatalogHeader(suite, data).proofLength == |BlobTo(suite, data, Records(|data|))|
    ensures CatalogHeader(suite, data).proofOffset == HEADER_LENGTH + ENTRY_LENGTH * Records(|data|)
    ensures CatalogHeader(suite, data).indexOffset == HEADER_LENGTH
  {
    hide BlobTo, Root, Records, Zeros;
  }

  lemma BuiltEntry(view: View, suite: nat, data: Bytes, j: nat)
    requires KnownSuite(suite) && |data| <= MAX_OBJECT_LENGTH && j < Records(|data|)
    requires Laid(CatalogHeader(suite, data)) && |CatalogBytes(suite, data)| == CatalogHeader(suite, data).catalogLength
    ensures EntryAt(view, CatalogBytes(suite, data), CatalogHeader(suite, data), j) == EntryFor(suite, data, j)
  {
    hide RecordProof, PackHeader, ReadEntry, PackEntry, Records, IndexTo, BlobTo, CatalogHeader;
    var count := Records(|data|);
    BuiltHeaderLength(suite, data);
    HeaderProofLength(suite, data);
    IndexPart(suite, data, count, j);
    MiddlePart(PackHeader(CatalogHeader(suite, data)), IndexTo(suite, data, count), BlobTo(suite, data, count),
               16 * j, 16 * j + 16);
    RecordSize(suite, data, j);
    BlobGrows(suite, data, j, count);
    ReadPackedEntry(view, EntryFor(suite, data, j));
  }

  lemma BuiltProof(suite: nat, data: Bytes, j: nat)
    requires KnownSuite(suite) && |data| <= MAX_OBJECT_LENGTH && j < Records(|data|)
    ensures ProofAt(CatalogBytes(suite, data), CatalogHeader(suite, data), EntryFor(suite, data, j)) == RecordProof(suite, data, j)
  {
    hide RecordProof, PackHeader, Records, IndexTo, BlobTo, CatalogHeader;
    var count := Records(|data|);
    BuiltHeaderLength(suite, data);
    HeaderProofLength(suite, data);
    IndexSize(suite, data, count);
    BlobPart(suite, data, count, j);
    BlobStep(suite, data, j);
    LastPart(PackHeader(CatalogHeader(suite, data)) + IndexTo(suite, data, count), BlobTo(suite, data, count),
             |BlobTo(suite, data, j)|, |BlobTo(suite, data, j + 1)|);
  }

  lemma BlobStep(suite: nat, data: Bytes, j: nat)
    requires j < Records(|data|)
    ensures BlobTo(suite, data, j + 1) == BlobTo(suite, data, j) + RecordProof(suite, data, j)
  {
    hide RecordProof;
  }

  lemma BuiltRecord(view: View, suite: nat, data: Bytes, j: nat)
    requires KnownSuite(suite) && |data| <= MAX_OBJECT_LENGTH && j < Records(|data|)
    requires Laid(CatalogHeader(suite, data)) && |CatalogBytes(suite, data)| == CatalogHeader(suite, data).catalogLength
    ensures RecordBuilt(view, CatalogBytes(suite, data), CatalogHeader(suite, data), suite, data, j)
  {
    hide EntryAt, ProofAt, EntryFor, CatalogBytes, RecordProof;
    BuiltEntry(view, suite, data, j);
    BuiltProof(suite, data, j);
  }

  /** Under the object's own identity the full parser accepts exactly one
      catalog: the one `build_catalog` writes. */
  lemma CatalogExact(view: View, blob: Bytes, suite: nat, data: Bytes)
    requires KnownSuite(suite) && |data| <= MAX_OBJECT_LENGTH && PlainCatalog(blob, Records(|data|))
    ensures FullOutcome(view, blob, Identity(suite, Root(suite, data), |data|), Context(suite, data)) == Accepted
            <==> blob == CatalogBytes(suite, data)
  {
    BuiltIsAccepted(view, suite, data);
    if FullOutcome(view, blob, Identity(suite, Root(suite, data), |data|), Context(suite, data)) == Accepted {
      AcceptedIsBuilt(view, blob, suite, data);
    }
  }

  lemma AcceptedIsBuilt(view: View, blob: Bytes, suite: nat, data: Bytes)
    requires KnownSuite(suite) && |data| <= MAX_OBJECT_LENGTH && PlainCatalog(blob, Records(|data|))
    requires FullOutcome(view, blob, Identity(suite, Root(suite, data), |data|), Context(suite, data)) == Accepted
    ensures blob == CatalogBytes(suite, data)
  {
    hide RecordProof, Root, ReadHeader, PackHeader, HeaderOutcome, Packable, Field, Number, Zeros, ReadEntry, PackEntry, Records,
      EntryAt, ProofAt, FullOutcome, ScanEntries, VerifyRecords, IndexTo, BlobTo, CatalogHeader;
    AcceptedParts(view, blob, Identity(suite, Root(suite, data), |data|), Context(suite, data));
    var h := ReadHeader(view, blob[..HEADER_LENGTH]);
    HeaderLaid(h, Identity(suite, Root(suite, data), |data|));
    BlobNone(suite, data);
    RestExact(view, blob, h, suite, data, 0);
    AcceptedHeader(h, suite, data);
    PackReadHeader(view, blob[..HEADER_LENGTH]);
    IndexIs(view, blob, h, suite, data, h.count);
    BlobIs(view, blob, h, suite, data, h.count);
    ThreePieces(blob, HEADER_LENGTH, h.proofOffset);
  }

  lemma BlobNone(suite: nat, data: Bytes)
    ensures BlobTo(suite, data, 0) == []
  {
  }

  lemma ThreePieces(blob: Bytes, p: nat, q: nat)
    requires p <= q <= |blob|
    ensures blob == blob[..p] + blob[p..q] + blob[q..|blob|]
  {
  }

  /** What acceptance by the full parser says, step by step. */
  lemma AcceptedParts(view: View, blob: Bytes, expected: Identity, ctx: Context)
    requires |ctx.data| == expected.length && FullOutcome(view, blob, expected, ctx) == Accepted
    ensures |blob| >= HEADER_LENGTH
    ensures var h := ReadHeader(view, blob[..HEADER_LENGTH]);
            && HeaderOutcome(h, expected) == Accepted && |blob| == h.catalogLength && Laid(h)
            && h.objectLength == expected.length
            && ScanEntries(view, blob, h, 0, 0) == Accepted && VerifyRecords(view, blob, h, ctx, 0) == Accepted
  {
    hide HeaderOutcome, ReadHeader, ScanEntries, VerifyRecords, Records;
    HeaderLaid(ReadHeader(view, blob[..HEADER_LENGTH]), expected);
  }
}
