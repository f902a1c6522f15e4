/** The full parser against random access to every record. */
module CatalogAccess {
  import opened Hashing
  import opened CatalogFormat
  import opened Catalog
  import opened CatalogParser

  /** Storage whose header is accepted and whose length is the header's. */
  ghost predicate Opened(view: View, blob: Bytes, expected: Identity) {
    && |blob| >= HEADER_LENGTH
    && var h := ReadHeader(view, blob[..HEADER_LENGTH]);
       HeaderOutcome(h, expected) == Accepted && |blob| == h.catalogLength
  }

  /** From record i on, each proof starts where the one before ends, and the last
      ends the proof blob. */
  ghost predicate Chains(view: View, blob: Bytes, h: Header, i: nat, relative: nat)
    requires Laid(h) && |blob| == h.catalogLength && i <= h.count
    decreases h.count - i
  {
    if i == h.count then relative == h.proofLength else
    var e := EntryAt(view, blob, h, i);
    e.relative == relative && Chains(view, blob, h, i + 1, e.relative + e.length)
  }

  /** What random access asks of one record. */
  ghost predicate Selectable(view: View, blob: Bytes, h: Header, ctx: Context, j: nat)
    requires Laid(h) && |blob| == h.catalogLength && j < h.count && |ctx.data| == h.objectLength
  {
    var e := EntryAt(view, blob, h, j);
    && EntrySound(e) && e.relative + e.length <= h.proofLength
    && RecordAccepted(h.suite, h.root, j, ProofAt(blob, h, e), ctx)
  }

  lemma SelectedExact(view: View, blob: Bytes, expected: Identity, ctx: Context, j: nat)
    requires |ctx.data| == expected.length && Opened(view, blob, expected)
    ensures var h := ReadHeader(view, blob[..HEADER_LENGTH]);
            && Laid(h) && h.objectLength == expected.length
            && (j < h.count ==>
                  (SelectedRun(view, Stored(blob), |blob|, expected, j, ctx).outcome == Accepted
                   <==> Selectable(view, blob, h, ctx, j)))
  {
    hide HeaderOutcome, ReadHeader, Records, RecordAccepted, EntryRun, ProofRun, EntryAt, Stored, ProofAt, EntrySound;
    var h := ReadHeader(view, blob[..HEADER_LENGTH]);
    HeaderLaid(h, expected);
    StoredAt(blob, 0, HEADER_LENGTH);
    assert blob[0..HEADER_LENGTH] == blob[..HEADER_LENGTH];
    if j < h.count {
      EntryRunHere(view, blob, h, j, ctx, [(0, HEADER_LENGTH)]);
      ProofRunExact(blob, h, EntryAt(view, blob, h, j), j, ctx,
                    [(0, HEADER_LENGTH)] + [(128 + 16 * j, ENTRY_LENGTH)]);
    }
  }

  lemma ProofRunExact(blob: Bytes, h: Header, e: Entry, j: nat, ctx: Context, trace: seq<(nat, nat)>)
    requires Laid(h) && |ctx.data| == h.objectLength && j < h.count && |blob| == h.catalogLength
    ensures ProofRun(Stored(blob), h, e, j, ctx, trace).outcome == Accepted
            <==> && EntrySound(e) && e.relative + e.length <= h.proofLength
                 && RecordAccepted(h.suite, h.root, j, ProofAt(blob, h, e), ctx)
  {
    hide Records, RecordAccepted, EntrySound, Stored;
    if e.relative + e.length <= h.proofLength {
      StoredAt(blob, h.proofOffset + e.relative, e.length);
    }
  }

  /** Scanning and verifying from record i on is chaining, and selecting each record. */
  lemma {:induction false} RestSelects(view: View, blob: Bytes, h: Header, ctx: Context, i: nat, relative: nat)
    requires Laid(h) && |blob| == h.catalogLength && i <= h.count && |ctx.data| == h.objectLength
    ensures ScanEntries(view, blob, h, i, relative) == Accepted && VerifyRecords(view, blob, h, ctx, i) == Accepted
            <==> Chains(view, blob, h, i, relative) && SelectsFrom(view, blob, h, ctx, i)
    decreases h.count - i
  {
    hide Records, EntryAt, RecordAccepted, ProofAt, EntrySound, Laid, Selectable;
    if i < h.count {
      var e := EntryAt(view, blob, h, i);
      RestSelects(view, blob, h, ctx, i + 1, e.relative + e.length);
      SelectableIs(view, blob, h, ctx, i);
      SelectsStep(view, blob, h, ctx, i);
      hide SelectsFrom;
      assert h.proofLength <= U64_MAX by { ProofBounded(h); }
    }
  }

  lemma ProofBounded(h: Header)
    requires Laid(h)
    ensures h.proofLength <= U64_MAX
  {
  }

  lemma SelectableIs(view: View, blob: Bytes, h: Header, ctx: Context, j: nat)
    requires Laid(h) && |blob| == h.catalogLength && j < h.count && |ctx.data| == h.objectLength
    ensures var e := EntryAt(view, blob, h, j);
            Selectable(view, blob, h, ctx, j)
            <==> && EntrySound(e) && e.relative + e.length <= h.proofLength
                 && RecordAccepted(h.suite, h.root, j, ProofAt(blob, h, e), ctx)
  {
    hide RecordAccepted, EntryAt, ProofAt, EntrySound, Records;
  }

  ghost predicate SelectsFrom(view: View, blob: Bytes, h: Header, ctx: Context, i: nat)
    requires Laid(h) && |blob| == h.catalogLength && |ctx.data| == h.objectLength
  {
    forall j: nat :: i <= j < h.count ==> Selectable(view, blob, h, ctx, j)
  }

  lemma SelectsStep(view: View, blob: Bytes, h: Header, ctx: Context, i: nat)
    requires Laid(h) && |blob| == h.catalogLength && i < h.count && |ctx.data| == h.objectLength
    ensures SelectsFrom(view, blob, h, ctx, i)
            <==> Selectable(view, blob, h, ctx, i) && SelectsFrom(view, blob, h, ctx, i + 1)
  {
    hide Selectable, Laid;
  }

  /** The full parser accepts exactly when the storage opens, random access
      accepts every record, and the proofs chain from the start of the proof
      blob to its end. */
  lemma FullIffSelected(view: View, blob: Bytes, expected: Identity, ctx: Context)
    requires |ctx.data| == expected.length
    ensures FullOutcome(view, blob, expected, ctx) == Accepted
            <==> && Opened(view, blob, expected)
                 && AllSelected(view, blob, expected, ctx)
                 && (var h := ReadHeader(view, blob[..HEADER_LENGTH]); Laid(h) && Chains(view, blob, h, 0, 0))
  {
    hide HeaderOutcome, ReadHeader, Records, ScanEntries, VerifyRecords, SelectedRun, Laid, Chains, SelectsFrom;
    if Opened(view, blob, expected) {
      var h := ReadHeader(view, blob[..HEADER_LENGTH]);
      HeaderLaid(h, expected);
      RestSelects(view, blob, h, ctx, 0, 0);
      Selection(view, blob, expected, ctx);
    }
  }

  /** Random access accepts every record the identity implies. */
  ghost predicate AllSelected(view: View, blob: Bytes, expected: Identity, ctx: Context)
    requires |ctx.data| == expected.length
  {
    forall j: nat :: j < Records(expected.length) ==>
      SelectedRun(view, Stored(blob), |blob|, expected, j, ctx).outcome == Accepted
  }

  lemma Selection(view: View, blob: Bytes, expected: Identity, ctx: Context)
    requires |ctx.data| == expected.length && Opened(view, blob, expected)
    ensures var h := ReadHeader(view, blob[..HEADER_LENGTH]);
            && Laid(h) && h.objectLength == expected.length
            && (AllSelected(view, blob, expected, ctx) <==> SelectsFrom(view, blob, h, ctx, 0))
  {
    hide HeaderOutcome, ReadHeader, Records, SelectedRun, Selectable;
    SelectedExact(view, blob, expected, ctx, 0);
    var h := ReadHeader(view, blob[..HEADER_LENGTH]);
    forall j: nat | j < h.count
      ensures SelectedRun(view, Stored(blob), |blob|, expected, j, ctx).outcome == Accepted
              <==> Selectable(view, blob, h, ctx, j)
    {
      SelectedExact(view, blob, expected, ctx, j);
    }
  }

  // ----- why chaining is asked for

  /** The built header, with a proof blob longer by `more` bytes. */
  function PaddedHeader(suite: nat, data: Bytes, more: nat): Header {
    var h := CatalogHeader(suite, data);
    h.(proofLength := h.proofLength + more, catalogLength := h.catalogLength + more)
  }

  /** The built catalog, with bytes no entry refers to after its last proof. */
  function Padded(suite: nat, data: Bytes, pad: Bytes): Bytes {
    var count := Records(|data|);
    PackHeader(PaddedHeader(suite, data, |pad|)) + IndexTo(suite, data, count) + (BlobTo(suite, data, count) + pad)
  }

  lemma PaddedOpens(view: View, suite: nat, data: Bytes, pad: Bytes)
    requires KnownSuite(suite) && |data| <= MAX_OBJECT_LENGTH
    requires |BlobTo(suite, data, Records(|data|))| + |pad| <= MAX_PROOF_BLOB_LENGTH
    ensures var h := PaddedHeader(suite, data, |pad|);
            && Laid(h) && HeaderOutcome(h, Identity(suite, Root(suite, data), |data|)) == Accepted
            && |Padded(suite, data, pad)| == h.catalogLength && |PackHeader(h)| == HEADER_LENGTH
            && ReadHeader(view, Padded(suite, data, pad)[..HEADER_LENGTH]) == h
  {
    hide Root, BlobTo, IndexTo, Records, Zeros, PackHeader, ReadHeader;
    CatalogFits(suite, data);
    var h := PaddedHeader(suite, data, |pad|);
    ReadPackedHeader(view, h);
    IndexSize(suite, data, Records(|data|));
    assert Padded(suite, data, pad)[..HEADER_LENGTH] == PackHeader(h);
    HeaderLaid(h, Identity(suite, Root(suite, data), |data|));
  }

  lemma PaddedRecord(view: View, suite: nat, data: Bytes, pad: Bytes, j: nat)
    requires KnownSuite(suite) && |data| <= MAX_OBJECT_LENGTH && j < Records(|data|)
    requires |BlobTo(suite, data, Records(|data|))| + |pad| <= MAX_PROOF_BLOB_LENGTH
    ensures var h := PaddedHeader(suite, data, |pad|);
            && Laid(h) && |Padded(suite, data, pad)| == h.catalogLength && h.objectLength == |data| && j < h.count
            && RecordBuilt(view, Padded(suite, data, pad), h, suite, data, j)
  {
    hide Root, BlobTo, IndexTo, Records, Zeros, PackHeader, ReadHeader, ReadEntry, PackEntry, RecordProof, HeaderOutcome;
    PaddedOpens(view, suite, data, pad);
    var count, h := Records(|data|), PaddedHeader(suite, data, |pad|);
    var index, proofs := IndexTo(suite, data, count), BlobTo(suite, data, count);
    IndexPart(suite, data, count, j);
    MiddlePart(PackHeader(h), index, proofs + pad, 16 * j, 16 * j + 16);
    RecordSize(suite, data, j);
    BlobGrows(suite, data, j, count);
    ReadPackedEntry(view, EntryFor(suite, data, j));
    BlobPart(suite, data, count, j);
    BlobStep(suite, data, j);
    var lo, hi := |BlobTo(suite, data, j)|, |BlobTo(suite, data, j + 1)|;
    LastPart(PackHeader(h) + index, proofs + pad, lo, hi);
    assert (proofs + pad)[lo..hi] == proofs[lo..hi];
  }

  /** Records stored as built leave the scan short of a longer proof blob. */
  lemma {:induction false} ScanStopsShort(view: View, blob: Bytes, h: Header, suite: nat, data: Bytes, i: nat)
    requires Laid(h) && |blob| == h.catalogLength && h.objectLength == |data| && i <= h.count && h.suite == suite
    requires BuiltFrom(view, blob, h, suite, data, i) && |BlobTo(suite, data, h.count)| < h.proofLength
    ensures ScanEntries(view, blob, h, i, |BlobTo(suite, data, i)|) == Malformed
    decreases h.count - i
  {
    hide Records, EntryAt, RecordProof, ProofAt;
    if i < h.count {
      assert RecordBuilt(view, blob, h, suite, data, i);
      ScanStopsShort(view, blob, h, suite, data, i + 1);
      BlobStep(suite, data, i);
      RecordSize(suite, data, i);
      BlobGrows(suite, data, i + 1, h.count);
    }
  }

  /** A record stored as built is one random access accepts. */
  lemma BuiltSelectable(view: View, blob: Bytes, h: Header, suite: nat, data: Bytes, j: nat)
    requires Laid(h) && |blob| == h.catalogLength && h.objectLength == |data| && j < h.count
    requires h.suite == suite && h.root == Root(suite, data)
    requires RecordBuilt(view, blob, h, suite, data, j) && |BlobTo(suite, data, h.count)| <= h.proofLength
    ensures Selectable(view, blob, h, Context(suite, data), j)
  {
    hide Records, EntryAt, RecordAccepted, RecordProof, Root, ProofAt, BlobTo;
    RecordSize(suite, data, j);
    RecordExact(suite, data, j, RecordProof(suite, data, j));
    BlobStep(suite, data, j);
    BlobGrows(suite, data, j + 1, h.count);
  }

  /** A built catalog with unreferenced bytes at its end: random access accepts
      every record, and the full parser refuses. */
  lemma PaddingRefused(view: View, suite: nat, data: Bytes, pad: Bytes)
    requires KnownSuite(suite) && |data| <= MAX_OBJECT_LENGTH && pad != []
    requires |BlobTo(suite, data, Records(|data|))| + |pad| <= MAX_PROOF_BLOB_LENGTH
    ensures var id, ctx := Identity(suite, Root(suite, data), |data|), Context(suite, data);
            && Opened(view, Padded(suite, data, pad), id)
            && AllSelected(view, Padded(suite, data, pad), id, ctx)
            && FullOutcome(view, Padded(suite, data, pad), id, ctx) == Malformed
  {
    hide Root, BlobTo, IndexTo, Records, CatalogHeader, PackHeader, ReadHeader, HeaderOutcome, Padded, Laid, RecordBuilt,
      Selectable, ScanEntries, VerifyRecords, AllSelected;
    var id, ctx := Identity(suite, Root(suite, data), |data|), Context(suite, data);
    var blob, h := Padded(suite, data, pad), PaddedHeader(suite, data, |pad|);
    PaddedOpens(view, suite, data, pad);
    HeaderLaid(h, id);
    HeaderProofLength(suite, data);
    LaidCount(h);
    forall j: nat | j < h.count
      ensures RecordBuilt(view, blob, h, suite, data, j) && Selectable(view, blob, h, ctx, j)
    {
      PaddedRecord(view, suite, data, pad, j);
      BuiltSelectable(view, blob, h, suite, data, j);
    }
    Selection(view, blob, id, ctx);
    ScanStopsShort(view, blob, h, suite, data, 0);
    BlobNone(suite, data);
  }

  lemma LaidCount(h: Header)
    requires Laid(h)
    ensures h.count == Records(h.objectLength) && h.catalogLength >= HEADER_LENGTH
  {
    hide Records;
  }
}
