/** The benchmark's generated object: one sequential stream, and parallel
    producers that each frame one slab of it. */
module ObjectStream {
  import opened Wrappers
  import opened Powers
  import opened Gf256
  import opened JumpAhead

  const WORD_BYTES := 8
  const GROUP_BYTES := 65536
  const RECORDS_PER_BUNDLE := 16
  const MAX_RANGED_RECORD_BYTES := 196608
  const U64_MAX: nat := U64_LIMIT - 1

  /** A byte as eight bits, least significant first. */
  type Octet = seq<Bit>

  /** 0x9e37_79b9_7f4a_7c15, sixteen bits at a time from the least significant. */
  function SeedMask(): (r: Word)
    ensures |r| == 64
  {
    [I, O, I, O, I, O, O, O, O, O, I, I, I, I, I, O] + [O, I, O, I, O, O, I, O, I, I, I, I, I, I, I, O]
    + [I, O, O, I, I, I, O, I, I, O, O, I, I, I, I, O] + [I, I, I, O, I, I, O, O, O, I, I, I, I, O, O, I]
  }

  /** The generator's state before the first draw. */
  function Start(seed: Word): (r: Word)
    requires |seed| == 64
    ensures |r| == 64
  {
    Sum(seed, SeedMask())
  }

  /** Byte p of the object: byte p % 8 of draw p / 8. */
  function StreamByte(seed: Word, p: nat): Octet
    requires |seed| == 64
  {
    Steps(p / 8 + 1, Start(seed))[8 * (p % 8)..8 * (p % 8) + 8]
  }

  /** Bytes [lo, hi) of the object. */
  function ObjectBytes(seed: Word, lo: nat, hi: nat): (r: seq<Octet>)
    requires |seed| == 64 && lo <= hi
    ensures |r| == hi - lo
  {
    seq(hi - lo, i requires 0 <= i < hi - lo => StreamByte(seed, lo + i))
  }

  lemma BytesJoin(seed: Word, lo: nat, mid: nat, hi: nat)
    requires |seed| == 64 && lo <= mid <= hi
    ensures ObjectBytes(seed, lo, mid) + ObjectBytes(seed, mid, hi) == ObjectBytes(seed, lo, hi)
  {
    hide StreamByte;
  }

  function LittleEndian(w: Word): (r: seq<Octet>)
    requires |w| == 64
    ensures |r| == 8
  {
    seq(8, k requires 0 <= k < 8 => w[8 * k..8 * k + 8])
  }

  lemma DrawIsNextBytes(seed: Word, n: nat)
    requires |seed| == 64
    ensures LittleEndian(Steps(n + 1, Start(seed))) == ObjectBytes(seed, 8 * n, 8 * n + 8)
  {
    hide Steps, Start;
    var w := Steps(n + 1, Start(seed));
    forall k | 0 <= k < 8 ensures LittleEndian(w)[k] == ObjectBytes(seed, 8 * n, 8 * n + 8)[k] {
      var p := 8 * n + k;
      assert p / 8 == n && p % 8 == k;
      assert ObjectBytes(seed, 8 * n, 8 * n + 8)[k] == StreamByte(seed, p);
    }
  }

  function Words(bytes: nat): nat {
    CeilDiv(bytes, WORD_BYTES)
  }

  // ----- the source

  class ObjectSource {
    var state: Word
    ghost var seed: Word
    ghost var words: nat

    /** The state is `words` draws in. */
    ghost predicate Valid()
      reads this
    {
      |seed| == 64 && state == Steps(words, Start(seed))
    }

    constructor (seed: Word)
      requires |seed| == 64
      ensures Valid() && this.seed == seed && words == 0
    {
      state := Start(seed);
      this.seed := seed;
      words := 0;
    }

    /** The source advanced to a byte offset, which must be word aligned. */
    static method At(seed: Word, byteOffset: nat) returns (r: Option<ObjectSource>)
      requires |seed| == 64 && byteOffset <= U64_MAX
      ensures r.Some? <==> byteOffset % WORD_BYTES == 0
      ensures r.Some? ==> fresh(r.value) && r.value.Valid() && r.value.seed == seed && 8 * r.value.words == byteOffset
    {
      hide Steps;
      if byteOffset % WORD_BYTES != 0 { return None; }
      var source := new ObjectSource(seed);
      StepsNone(Start(seed));
      source.state := Advance(source.state, byteOffset / WORD_BYTES);
      source.words := byteOffset / WORD_BYTES;
      r := Some(source);
    }

    method Draw() returns (w: Word)
      requires Valid()
      modifies this
      ensures Valid() && seed == old(seed) && words == old(words) + 1
      ensures |w| == 64
      ensures LittleEndian(w) == ObjectBytes(seed, 8 * old(words), 8 * old(words) + 8)
    {
      hide LittleEndian, ObjectBytes, Start, Step;
      DrawIsNextBytes(seed, words);
      state := Step(state);
      words := words + 1;
      w := state;
    }

    /** Draws whole words and keeps the first `take` bytes. */
    method Fill(take: nat) returns (buffer: seq<Octet>)
      requires Valid()
      modifies this
      ensures Valid() && seed == old(seed) && words == old(words) + Words(take)
      ensures buffer == ObjectBytes(seed, 8 * old(words), 8 * old(words) + take)
    {
      hide LittleEndian, ObjectBytes, Steps;
      ghost var from := 8 * words;
      buffer := [];
      NoBytes(seed, from);
      for i := 0 to Words(take)
        invariant Valid() && seed == old(seed) && words == old(words) + i
        invariant buffer == ObjectBytes(seed, from, from + 8 * i)
      {
        var w := Draw();
        buffer := buffer + LittleEndian(w);
        BytesJoin(seed, from, from + 8 * i, from + 8 * i + 8);
      }
      BytesJoin(seed, from, from + take, from + 8 * Words(take));
      buffer := buffer[..take];
    }
  }

  lemma StepsNone(s: Word)
    requires |s| == 64
    ensures Steps(0, s) == s
  {
  }

  lemma NoBytes(seed: Word, p: nat)
    requires |seed| == 64
    ensures ObjectBytes(seed, p, p) == []
  {
  }

  // ----- slabs

  datatype WorkerRange = WorkerRange(offset: nat, bytes: nat)

  function SaturatingAdd(a: nat, b: nat): nat {
    if a + b <= U64_MAX then a + b else U64_MAX
  }

  function SaturatingMul(a: nat, b: nat): nat {
    if a * b <= U64_MAX then a * b else U64_MAX
  }

  /** The slabs of the first n workers, each nonempty, start to end, each
      starting on a group boundary. */
  ghost predicate Covers(ranges: seq<WorkerRange>, total: nat) {
    && (forall i :: 0 <= i < |ranges| ==> ranges[i].bytes > 0 && ranges[i].offset % GROUP_BYTES == 0)
    && (forall i :: 0 <= i < |ranges| ==>
          ranges[i].offset == if i == 0 then 0 else ranges[i - 1].offset + ranges[i - 1].bytes)
    && total == if ranges == [] then 0 else ranges[|ranges| - 1].offset + ranges[|ranges| - 1].bytes
  }

  function GroupsOf(bytes: nat): nat {
    CeilDiv(bytes, GROUP_BYTES)
  }

  lemma GroupsAbove(bytes: nat, g: nat)
    ensures g < GroupsOf(bytes) <==> 65536 * g < bytes
  {
  }

  /** Exact, aligned, nonempty slabs, or a refusal when a worker would have nothing. */
  method WorkerRanges(objectBytes: nat, workers: nat) returns (r: Option<seq<WorkerRange>>)
    requires objectBytes <= U64_MAX
    ensures r.None? <==> workers == 0 || workers > GroupsOf(objectBytes)
    ensures r.Some? ==> |r.value| == workers && Covers(r.value, objectBytes)
    ensures r.Some? ==> forall i :: 0 <= i < workers ==> r.value[i] == Slab(objectBytes, workers, i)
  {
    hide GroupsOf, SlabStart, Covers, Slab, SlabEnd, Share;
    if workers == 0 || workers > GroupsOf(objectBytes) { return None; }
    var (per, extra) := Share(objectBytes, workers);
    var ranges: seq<WorkerRange> := [];
    var offset := 0;
    NoSlabs(objectBytes, per, extra);
    for index := 0 to workers
      invariant |ranges| == index && Covers(ranges, offset)
      invariant forall i :: 0 <= i < index ==> ranges[i] == Slab(objectBytes, workers, i)
      invariant offset == SlabStart(objectBytes, per, extra, index)
    {
      NextSlab(objectBytes, workers, per, extra, index);
      var slab := per + (if index < extra then 1 else 0);
      var end := SlabEnd(offset, slab, objectBytes);
      ranges := Extend(ranges, offset, end);
      offset := end;
    }
    LastSlab(objectBytes, workers, per, extra);
    r := Some(ranges);
  }

  /** Whole groups each worker gets, and how many get one more. */
  function Share(objectBytes: nat, workers: nat): (nat, nat)
    requires workers > 0
  {
    (GroupsOf(objectBytes) / workers, GroupsOf(objectBytes) % workers)
  }

  lemma NextSlab(objectBytes: nat, workers: nat, per: nat, extra: nat, index: nat)
    requires objectBytes <= U64_MAX && index < workers <= GroupsOf(objectBytes) && (per, extra) == Share(objectBytes, workers)
    ensures var start := SlabStart(objectBytes, per, extra, index);
            var end := SlabEnd(start, per + (if index < extra then 1 else 0), objectBytes);
            && start % GROUP_BYTES == 0 && start < end == SlabStart(objectBytes, per, extra, index + 1)
            && Slab(objectBytes, workers, index) == WorkerRange(start, end - start)
  {
    hide GroupsOf, SlabStart, Slab, SlabEnd;
    Division(GroupsOf(objectBytes), workers);
    SlabStep(objectBytes, GroupsOf(objectBytes), workers, per, extra, index);
    SlabIs(objectBytes, workers, index);
  }

  /** Where worker `index` starts: whole groups, clamped to the object. */
  ghost function SlabStart(objectBytes: nat, per: nat, extra: nat, index: nat): nat {
    var start := 65536 * GroupsBefore(per, extra, index);
    if start < objectBytes then start else objectBytes
  }

  lemma SlabIs(objectBytes: nat, workers: nat, w: nat)
    requires w < workers <= GroupsOf(objectBytes)
    ensures var per, extra := GroupsOf(objectBytes) / workers, GroupsOf(objectBytes) % workers;
            var start, end := SlabStart(objectBytes, per, extra, w), SlabStart(objectBytes, per, extra, w + 1);
            start <= end ==> Slab(objectBytes, workers, w) == WorkerRange(start, end - start)
  {
    hide GroupsOf, SlabStart;
  }

  lemma SlabStep(objectBytes: nat, groups: nat, workers: nat, per: nat, extra: nat, index: nat)
    requires objectBytes <= U64_MAX && groups == GroupsOf(objectBytes)
    requires groups == per * workers + extra && extra < workers && per >= 1 && index < workers
    ensures var start := SlabStart(objectBytes, per, extra, index);
            && start % GROUP_BYTES == 0
            && start < SlabStart(objectBytes, per, extra, index + 1)
               == SlabEnd(start, per + (if index < extra then 1 else 0), objectBytes)
  {
    hide GroupsOf, GroupsBefore;
    SlabBounds(groups, workers, per, extra, index);
    GroupsAbove(objectBytes, GroupsBefore(per, extra, index));
  }

  lemma LastSlab(objectBytes: nat, workers: nat, per: nat, extra: nat)
    requires 0 < workers <= GroupsOf(objectBytes) && (per, extra) == Share(objectBytes, workers)
    ensures SlabStart(objectBytes, per, extra, workers) == objectBytes
  {
    hide GroupsOf;
    Division(GroupsOf(objectBytes), workers);
    GroupsAbove(objectBytes, GroupsOf(objectBytes));
  }

  lemma NoSlabs(objectBytes: nat, per: nat, extra: nat)
    ensures SlabStart(objectBytes, per, extra, 0) == 0 && Covers([], 0)
  {
  }

  /** Where a slab of whole groups ends, clamped to the object. */
  function SlabEnd(offset: nat, slab: nat, objectBytes: nat): (end: nat)
    requires objectBytes <= U64_MAX
    ensures end == if offset + 65536 * slab <= objectBytes then offset + 65536 * slab else objectBytes
  {
    var end := SaturatingAdd(offset, SaturatingMul(slab, GROUP_BYTES));
    if end < objectBytes then end else objectBytes
  }

  function Extend(ranges: seq<WorkerRange>, offset: nat, end: nat): (r: seq<WorkerRange>)
    requires Covers(ranges, offset) && offset < end && offset % GROUP_BYTES == 0
    ensures Covers(r, end) && |r| == |ranges| + 1 && r[..|ranges|] == ranges && r[|ranges|] == WorkerRange(offset, end - offset)
  {
    ranges + [WorkerRange(offset, end - offset)]
  }

  lemma Division(n: nat, d: nat)
    requires 0 < d <= n
    ensures n == (n / d) * d + n % d && n / d >= 1 && n % d < d
  {
  }

  /** Groups given to the workers before `index`. */
  ghost function GroupsBefore(per: nat, extra: nat, index: nat): nat {
    per * index + (if index < extra then index else extra)
  }

  lemma SlabBounds(groups: nat, workers: nat, per: nat, extra: nat, index: nat)
    requires groups == per * workers + extra && extra < workers && per >= 1 && index < workers
    ensures var g, slab := GroupsBefore(per, extra, index), per + (if index < extra then 1 else 0);
            && g < groups && g + slab <= groups
            && g + slab == GroupsBefore(per, extra, index + 1)
            && (index + 1 == workers ==> g + slab == groups)
  {
    assert per * (index + 1) == per * index + per;
    LeftGrows(per, index + 1, workers);
  }

  // ----- the sequential stream

  /** How an object is cut: whole records, and what is left over as the last. */
  method RecordLengths(objectBytes: nat, recordBytes: nat) returns (lengths: seq<nat>)
    requires recordBytes > 0
    ensures Total(lengths) == objectBytes
    ensures forall i :: 0 <= i < |lengths| ==> 0 < lengths[i] <= recordBytes
    ensures forall i :: 0 <= i < |lengths| - 1 ==> lengths[i] == recordBytes
  {
    var full, tail := objectBytes / recordBytes, objectBytes % recordBytes;
    lengths := [];
    assert full * recordBytes + tail == objectBytes;
    for i := 0 to full
      invariant |lengths| == i && forall j :: 0 <= j < i ==> lengths[j] == recordBytes
      invariant Total(lengths) == i * recordBytes
    {
      TotalAppend(lengths, recordBytes);
      lengths := lengths + [recordBytes];
      assert (i + 1) * recordBytes == i * recordBytes + recordBytes;
    }
    if tail != 0 {
      TotalAppend(lengths, tail);
      lengths := lengths + [tail];
    }
  }

  function Total(lengths: seq<nat>): nat {
    if lengths == [] then 0 else Total(lengths[..|lengths| - 1]) + lengths[|lengths| - 1]
  }

  lemma TotalAppend(lengths: seq<nat>, n: nat)
    ensures Total(lengths + [n]) == Total(lengths) + n
  {
    assert (lengths + [n])[..|lengths|] == lengths;
  }

  /** The object streamed once, group by group, as the subject hash sees it. */
  method SequentialObject(seed: Word, objectBytes: nat) returns (bytes: seq<Octet>)
    requires |seed| == 64
    ensures bytes == ObjectBytes(seed, 0, objectBytes)
  {
    hide ObjectBytes;
    var source := new ObjectSource(seed);
    var lengths := RecordLengths(objectBytes, GROUP_BYTES);
    bytes := [];
    NoBytes(seed, 0);
    ghost var done := 0;
    assert lengths[..0] == [];
    for i := 0 to |lengths|
      invariant source.Valid() && source.seed == seed && fresh(source)
      invariant done == Total(lengths[..i])
      invariant i < |lengths| ==> 8 * source.words == done
      invariant bytes == ObjectBytes(seed, 0, done)
    {
      var take := lengths[i];
      var group := source.Fill(take);
      BytesJoin(seed, 0, done, done + take);
      bytes := bytes + group;
      TotalAppend(lengths[..i], take);
      assert lengths[..i + 1] == lengths[..i] + [take];
      done := done + take;
    }
    assert lengths[..|lengths|] == lengths;
  }

  // ----- the producers

  /** Names a bundle on the wire. */
  datatype BundleId = BundleId(seed: Word, worker: nat, chunk: nat)

  datatype DataRecord = DataRecord(bundle: BundleId, index: nat, offset: nat, payload: seq<Octet>)

  /** A proof bundle's header: what it covers, and how many records follow. */
  datatype ProofBundle = ProofBundle(id: BundleId, offset: nat, length: nat, recordCount: nat)

  /** What one call to `next_bundle` came to. */
  datatype Framed = Spent | Failed | Framed(bundle: ProofBundle, records: seq<DataRecord>)

  function Payloads(records: seq<DataRecord>): seq<Octet> {
    if records == [] then [] else Payloads(records[..|records| - 1]) + records[|records| - 1].payload
  }

  /** A record holds the object's bytes at its own offset. */
  ghost predicate Placed(r: DataRecord, seed: Word)
    requires |seed| == 64
  {
    r.payload != [] && r.payload == ObjectBytes(seed, r.offset, r.offset + |r.payload|)
  }

  /** Records that tile bytes [from, to) of the object: the first at `from`, each
      next where the one before ends, the last ending at `to`. */
  ghost predicate Tiles(records: seq<DataRecord>, seed: Word, from: nat, to: nat)
    requires |seed| == 64
    decreases |records|
  {
    if records == [] then from == to else
    var last := records[|records| - 1];
    Placed(last, seed) && last.offset + |last.payload| == to && Tiles(records[..|records| - 1], seed, from, last.offset)
  }

  lemma TilesAppend(records: seq<DataRecord>, r: DataRecord, seed: Word, from: nat, to: nat)
    requires |seed| == 64 && Tiles(records, seed, from, to) && Placed(r, seed) && r.offset == to
    ensures Tiles(records + [r], seed, from, to + |r.payload|)
  {
    hide Placed;
    assert (records + [r])[..|records|] == records;
  }

  lemma {:induction false} TilesJoin(a: seq<DataRecord>, b: seq<DataRecord>, seed: Word, from: nat, mid: nat, to: nat)
    requires |seed| == 64 && Tiles(a, seed, from, mid) && Tiles(b, seed, mid, to)
    ensures Tiles(a + b, seed, from, to)
    decreases |b|
  {
    hide Placed;
    if b == [] {
      assert a + b == a;
    } else {
      var front, last := b[..|b| - 1], b[|b| - 1];
      TilesJoin(a, front, seed, from, mid, last.offset);
      TilesAppend(a + front, last, seed, from, last.offset);
      assert a + b == (a + front) + [last];
    }
  }

  /** Tiles joined are the bytes they tile, and run forward through them. */
  lemma {:induction false} TilesBytes(records: seq<DataRecord>, seed: Word, from: nat, to: nat)
    requires |seed| == 64 && Tiles(records, seed, from, to)
    ensures from <= to && Payloads(records) == ObjectBytes(seed, from, to)
    ensures forall i :: 0 <= i < |records| ==>
              Placed(records[i], seed) && from <= records[i].offset && records[i].offset + |records[i].payload| <= to
    decreases |records|
  {
    if records == [] {
      NoBytes(seed, from);
    } else {
      hide ObjectBytes;
      var front, last := records[..|records| - 1], records[|records| - 1];
      TilesBytes(front, seed, from, last.offset);
      BytesJoin(seed, from, last.offset, to);
    }
  }

  /** Tiles stand in strictly ascending offset order. */
  lemma {:induction false} TilesAscend(records: seq<DataRecord>, seed: Word, from: nat, to: nat)
    requires |seed| == 64 && Tiles(records, seed, from, to)
    ensures Ascends(records)
    decreases |records|
  {
    if records != [] {
      var front, last := records[..|records| - 1], records[|records| - 1];
      TilesAscend(front, seed, from, last.offset);
      TilesBytes(front, seed, from, last.offset);
      hide ObjectBytes, Payloads, Tiles;
      assert forall i :: 0 <= i < |front| ==> records[i] == front[i] && front[i].payload != [];
    }
  }

  ghost predicate Ascends(records: seq<DataRecord>) {
    forall i, j :: 0 <= i < j < |records| ==> records[i].offset < records[j].offset
  }

  /** The same records, put in offset order. */
  ghost predicate Sorted(order: seq<DataRecord>, records: seq<DataRecord>) {
    && multiset(order) == multiset(records)
    && forall i, j :: 0 <= i < j < |order| ==> order[i].offset <= order[j].offset
  }

  /** Strictly ascending records have no other offset order. */
  lemma {:induction false} OneOrder(order: seq<DataRecord>, records: seq<DataRecord>)
    requires Ascends(records) && Sorted(order, records)
    ensures order == records
    decreases |records|
  {
    SameSize(order, records);
    if records != [] {
      var n := |records| - 1;
      SameLast(order, records, n);
      WithoutLast(order, records, n);
      hide Ascends, Sorted;
      OneOrder(order[..n], records[..n]);
      assert order == order[..n] + [order[n]] && records == records[..n] + [records[n]];
    }
  }

  lemma WithoutLast(order: seq<DataRecord>, records: seq<DataRecord>, n: nat)
    requires Ascends(records) && Sorted(order, records) && |order| == |records| == n + 1 && order[n] == records[n]
    ensures Ascends(records[..n]) && Sorted(order[..n], records[..n])
  {
    FrontBag(order, n);
    FrontBag(records, n);
  }

  lemma FrontBag(records: seq<DataRecord>, n: nat)
    requires |records| == n + 1
    ensures multiset(records[..n]) == multiset(records) - multiset{records[n]}
  {
    assert records == records[..n] + [records[n]];
  }

  lemma SameSize(order: seq<DataRecord>, records: seq<DataRecord>)
    requires multiset(order) == multiset(records)
    ensures |order| == |records|
  {
    assert |multiset(order)| == |order| && |multiset(records)| == |records|;
  }

  lemma SameLast(order: seq<DataRecord>, records: seq<DataRecord>, n: nat)
    requires Ascends(records) && Sorted(order, records) && |order| == |records| == n + 1
    ensures order[n] == records[n]
  {
    var a, b := order[n], records[n];
    assert a in multiset(records) && b in multiset(order);
    var i :| 0 <= i < |records| && records[i] == a;
    var j :| 0 <= j < |order| && order[j] == b;
  }

  /** Tiles, in whatever order they came, sorted by offset are the bytes they tile. */
  lemma InOffsetOrder(records: seq<DataRecord>, order: seq<DataRecord>, seed: Word, from: nat, to: nat)
    requires |seed| == 64 && Tiles(records, seed, from, to) && Sorted(order, records)
    ensures from <= to && order == records && Payloads(order) == ObjectBytes(seed, from, to)
  {
    hide Tiles, Sorted, Ascends, ObjectBytes, Payloads;
    TilesBytes(records, seed, from, to);
    TilesAscend(records, seed, from, to);
    OneOrder(order, records);
  }

  /** The records of one bundle: as many as `recordBytes` divide its length into,
      tiling it, each at its multiple of `recordBytes`. */
  ghost predicate Frames(bundle: ProofBundle, records: seq<DataRecord>, seed: Word, recordBytes: nat)
    requires |seed| == 64
  {
    && recordBytes > 0 && 0 < bundle.recordCount == |records| == CeilDiv(bundle.length, recordBytes)
    && Tiles(records, seed, bundle.offset, bundle.offset + bundle.length)
    && forall i :: 0 <= i < |records| ==>
         && records[i].bundle == bundle.id && records[i].index == i
         && records[i].offset == bundle.offset + i * recordBytes
         && 0 < |records[i].payload| <= recordBytes
  }

  const CHUNK_MAX := 0xFFFF_FFFF

  /** A bundle's chunk number saturates at 32 bits. */
  function NextChunk(chunk: nat): nat {
    if chunk < CHUNK_MAX then chunk + 1 else chunk
  }

  class BundleProducer {
    const recordBytes: nat
    const end: nat
    const seed: Word
    const worker: nat
    var source: ObjectSource
    /** Where in the object this worker's next bundle starts. */
    var cursor: nat
    var chunk: nat

    ghost predicate Valid()
      reads this, source
    {
      && |seed| == 64 && recordBytes > 0 && recordBytes % 8 == 0
      && source.Valid() && source.seed == seed
      && cursor <= end && (cursor < end ==> cursor == 8 * source.words)
    }

    constructor (seed: Word, recordBytes: nat, range: WorkerRange, worker: nat, source: ObjectSource)
      requires |seed| == 64 && recordBytes > 0 && recordBytes % 8 == 0
      requires source.Valid() && source.seed == seed && 8 * source.words == range.offset
      ensures Valid() && this.source == source && cursor == range.offset && end == range.offset + range.bytes
      ensures this.seed == seed && this.recordBytes == recordBytes && this.worker == worker && chunk == 0
    {
      this.recordBytes := recordBytes;
      this.end := range.offset + range.bytes;
      this.seed := seed;
      this.worker := worker;
      this.source := source;
      cursor := range.offset;
      chunk := 0;
    }

    /** Frames the next bundle. `proved` is whether the range prover answered. */
    method NextBundle(proved: bool) returns (r: Framed)
      requires Valid()
      modifies this, source
      ensures Valid() && source == old(source)
      ensures r.Spent? <==> old(cursor) == end
      ensures !r.Framed? ==> cursor == old(cursor) && chunk == old(chunk)
      ensures r.Framed? ==>
                && Frames(r.bundle, r.records, seed, recordBytes)
                && r.bundle.id == BundleId(seed, worker, old(chunk))
                && r.bundle.offset == old(cursor) < cursor == r.bundle.offset + r.bundle.length
                && (cursor < end ==> r.bundle.length == 16 * recordBytes)
                && r.bundle.length <= 16 * recordBytes
                && chunk == NextChunk(old(chunk))
      ensures proved ==> !r.Failed?
    {
      if cursor >= end { return Spent; }
      var most := recordBytes * RECORDS_PER_BUNDLE;
      var length := if most < end - cursor then most else end - cursor;
      if !proved { return Failed; }
      var records := FrameRecords(BundleId(seed, worker, chunk), cursor, length);
      r := Framed(ProofBundle(BundleId(seed, worker, chunk), cursor, length, |records|), records);
      cursor := cursor + length;
      chunk := NextChunk(chunk);
    }

    method FrameRecords(id: BundleId, from: nat, length: nat) returns (records: seq<DataRecord>)
      requires Valid() && from == cursor && 0 < length && from + length <= end
      requires from + length == end || length == recordBytes * RECORDS_PER_BUNDLE
      modifies source
      ensures source.Valid() && source.seed == seed && source == old(source)
      ensures from + length < end ==> 8 * source.words == from + length
      ensures Frames(ProofBundle(id, from, length, |records|), records, seed, recordBytes)
    {
      hide ObjectBytes, Tiles, CeilDiv, Boundary, Cut;
      records := [];
      var offset, bundleEnd := from, from + length;
      NoFrames(seed, id, from, recordBytes);
      var count := CeilDiv(length, recordBytes);
      FirstBoundary(from, length, recordBytes);
      for i := 0 to count
        invariant |records| == i && source.Valid() && source.seed == seed
        invariant offset == Boundary(from, length, recordBytes, i)
        invariant offset < end ==> 8 * source.words == offset
        invariant Cut(records, id, from, offset, seed, recordBytes)
      {
        BoundaryStep(from, length, recordBytes, i);
        var take := if recordBytes < bundleEnd - offset then recordBytes else bundleEnd - offset;
        WholeWords(take, recordBytes);
        var payload := source.Fill(take);
        CutAppend(records, id, from, offset, seed, recordBytes, payload);
        records := records + [DataRecord(id, |records|, offset, payload)];
        offset := offset + take;
      }
      LastBoundary(from, length, recordBytes);
      CutFrames(records, id, from, length, seed, recordBytes);
    }
  }

  /** Where record i of a bundle starts. */
  ghost function Boundary(from: nat, length: nat, recordBytes: nat, i: nat): nat {
    if i * recordBytes < length then from + i * recordBytes else from + length
  }

  lemma BoundaryStep(from: nat, length: nat, recordBytes: nat, i: nat)
    requires recordBytes > 0 && i < CeilDiv(length, recordBytes)
    ensures var take := if recordBytes < length - i * recordBytes then recordBytes else length - i * recordBytes;
            && 0 < take
            && Boundary(from, length, recordBytes, i) == from + i * recordBytes < from + length
            && Boundary(from, length, recordBytes, i + 1) == from + i * recordBytes + take
            && (length == recordBytes * RECORDS_PER_BUNDLE ==> take == recordBytes)
  {
    hide CeilDiv;
    CeilAbove(length, recordBytes, i);
    assert (i + 1) * recordBytes == i * recordBytes + recordBytes;
    if length == recordBytes * RECORDS_PER_BUNDLE {
      assert i < RECORDS_PER_BUNDLE;
      LeftGrows(recordBytes, i + 1, RECORDS_PER_BUNDLE);
    }
  }

  lemma FirstBoundary(from: nat, length: nat, recordBytes: nat)
    requires 0 < length && recordBytes > 0
    ensures Boundary(from, length, recordBytes, 0) == from && 0 < CeilDiv(length, recordBytes)
  {
    hide CeilDiv;
    CeilAbove(length, recordBytes, 0);
  }

  lemma LastBoundary(from: nat, length: nat, recordBytes: nat)
    requires recordBytes > 0
    ensures Boundary(from, length, recordBytes, CeilDiv(length, recordBytes)) == from + length
  {
    hide CeilDiv;
    CeilAbove(length, recordBytes, CeilDiv(length, recordBytes));
  }

  lemma CutFrames(records: seq<DataRecord>, id: BundleId, from: nat, length: nat, seed: Word, recordBytes: nat)
    requires |seed| == 64 && recordBytes > 0 && Cut(records, id, from, from + length, seed, recordBytes)
    requires 0 < |records| == CeilDiv(length, recordBytes)
    ensures Frames(ProofBundle(id, from, length, |records|), records, seed, recordBytes)
  {
    hide Tiles, CeilDiv;
  }

  lemma WholeWords(take: nat, recordBytes: nat)
    requires recordBytes % 8 == 0
    ensures take == recordBytes ==> 8 * Words(take) == take
  {
  }

  /** Records cut from `from` up to `offset`, in order. */
  ghost predicate Cut(records: seq<DataRecord>, id: BundleId, from: nat, offset: nat, seed: Word, recordBytes: nat) {
    && |seed| == 64 && from <= offset && Tiles(records, seed, from, offset)
    && forall i :: 0 <= i < |records| ==>
         && records[i].bundle == id && records[i].index == i
         && records[i].offset == from + i * recordBytes && 0 < |records[i].payload| <= recordBytes
  }

  lemma NoFrames(seed: Word, id: BundleId, from: nat, recordBytes: nat)
    requires |seed| == 64
    ensures Cut([], id, from, from, seed, recordBytes)
  {
    NoBytes(seed, from);
  }

  lemma CutAppend(records: seq<DataRecord>, id: BundleId, from: nat, offset: nat, seed: Word, recordBytes: nat,
                  payload: seq<Octet>)
    requires Cut(records, id, from, offset, seed, recordBytes) && offset == from + |records| * recordBytes
    requires 0 < |payload| <= recordBytes && payload == ObjectBytes(seed, offset, offset + |payload|)
    ensures Cut(records + [DataRecord(id, |records|, offset, payload)], id, from, offset + |payload|, seed, recordBytes)
  {
    hide ObjectBytes, Tiles;
    TilesAppend(records, DataRecord(id, |records|, offset, payload), seed, from, offset);
  }

  // ----- all producers against the one stream

  /** A bundle with the records that came under it. */
  datatype Whole = Whole(bundle: ProofBundle, records: seq<DataRecord>)

  /** One worker's bundles: its own ids, and every record under its bundle's id. */
  ghost predicate LaneOf(lane: seq<Whole>, worker: nat) {
    forall i :: 0 <= i < |lane| ==> BundleOf(lane[i], worker)
  }

  ghost predicate BundleOf(whole: Whole, worker: nat) {
    && whole.bundle.id.worker == worker && |whole.records| == whole.bundle.recordCount > 0
    && forall j :: 0 <= j < |whole.records| ==>
         whole.records[j].bundle == whole.bundle.id && whole.records[j].index == j
  }

  /** A lane's records, bundle by bundle. */
  function LaneRecords(lane: seq<Whole>): seq<DataRecord> {
    if lane == [] then [] else LaneRecords(lane[..|lane| - 1]) + lane[|lane| - 1].records
  }

  lemma LaneAppend(lane: seq<Whole>, whole: Whole)
    ensures LaneRecords(lane + [whole]) == LaneRecords(lane) + whole.records
  {
    assert (lane + [whole])[..|lane|] == lane;
  }

  /** The chunk number of a worker's bundle i. */
  function Chunk(i: nat): nat {
    if i < CHUNK_MAX then i else CHUNK_MAX
  }

  /** A worker's bundles are numbered in order, up to where the numbers saturate. */
  ghost predicate Numbered(lane: seq<Whole>, seed: Word, worker: nat) {
    forall i :: 0 <= i < |lane| ==> lane[i].bundle.id == BundleId(seed, worker, Chunk(i))
  }

  /** Bytes in a full bundle. */
  function BundleBytes(recordBytes: nat): nat {
    recordBytes * RECORDS_PER_BUNDLE
  }

  lemma BundleIs(recordBytes: nat)
    ensures BundleBytes(recordBytes) == 16 * recordBytes
  {
  }

  /** One worker's bundles: numbered in order, as many as cover its slab, bundle i
      i full bundles into the slab and ending where the next starts, each with
      its records in place. */
  ghost predicate LaneFramed(lane: seq<Whole>, seed: Word, worker: nat, range: WorkerRange, recordBytes: nat)
    requires |seed| == 64
  {
    && recordBytes > 0 && LaneOf(lane, worker) && Numbered(lane, seed, worker)
    && |lane| == CeilDiv(range.bytes, BundleBytes(recordBytes))
    && LanePlaced(lane, seed, range, recordBytes)
    && Tiles(LaneRecords(lane), seed, range.offset, range.offset + range.bytes)
  }

  ghost predicate LanePlaced(lane: seq<Whole>, seed: Word, range: WorkerRange, recordBytes: nat)
    requires |seed| == 64
  {
    forall i :: 0 <= i < |lane| ==> BundlePlaced(lane[i], seed, range, recordBytes, i)
  }

  ghost predicate BundlePlaced(whole: Whole, seed: Word, range: WorkerRange, recordBytes: nat, i: nat)
    requires |seed| == 64
  {
    && Frames(whole.bundle, whole.records, seed, recordBytes)
    && whole.bundle.offset == range.offset + i * BundleBytes(recordBytes)
    && whole.bundle.offset + whole.bundle.length ==
       Boundary(range.offset, range.bytes, BundleBytes(recordBytes), i + 1)
  }

  /** Drains one worker's producer. Its bundles run through its slab in order. */
  method DrainWorker(seed: Word, recordBytes: nat, range: WorkerRange, worker: nat) returns (lane: Option<seq<Whole>>)
    requires |seed| == 64 && range.offset + range.bytes <= U64_MAX
    ensures lane.Some? <==> range.offset % 8 == 0 && recordBytes in {65_536, 131_072, 196_608}
    ensures lane.Some? ==> LaneFramed(lane.value, seed, worker, range, recordBytes)
  {
    hide Tiles, LaneRecords, LaneOf, LaneTo, LaneFramed, Frames, CeilDiv, Numbered, Chunk, NextChunk, RangedRecordBytes;
    RangedAre(recordBytes);
    var source := ObjectSource.At(seed, range.offset);
    if source.None? || !RangedRecordBytes(recordBytes) { return None; }
    assert 0 < recordBytes && recordBytes % 8 == 0 by { RangedIsWhole(recordBytes); }
    var producer := new BundleProducer(seed, recordBytes, range, worker, source.value);
    var out: seq<Whole> := [];
    LaneStart(seed, range, recordBytes, worker);
    ghost var at := range.offset;
    var framed := producer.NextBundle(true);
    while !framed.Spent?
      invariant producer.Valid() && producer.source == source.value && fresh(producer) && fresh(source.value)
      invariant LaneTo(out, seed, worker, range, recordBytes, at)
      invariant framed.Spent? ==> at == producer.end
      invariant !framed.Spent? ==>
                  && framed.Framed? && Frames(framed.bundle, framed.records, seed, recordBytes)
                  && framed.bundle.id == BundleId(seed, worker, Chunk(|out|)) && producer.chunk == Chunk(|out| + 1)
                  && framed.bundle.offset == at < producer.cursor == at + framed.bundle.length
                  && (producer.cursor < producer.end ==> framed.bundle.length == BundleBytes(recordBytes))
                  && framed.bundle.length <= BundleBytes(recordBytes)
      decreases producer.end - at
    {
      LaneGrows(out, Whole(framed.bundle, framed.records), seed, recordBytes, range, at, worker);
      out := out + [Whole(framed.bundle, framed.records)];
      at := producer.cursor;
      framed := producer.NextBundle(true);
    }
    LaneDone(out, seed, worker, range, recordBytes);
    lane := Some(out);
  }

  lemma RangedIsWhole(recordBytes: nat)
    requires RangedRecordBytes(recordBytes)
    ensures 0 < recordBytes && recordBytes % 8 == 0
  {
  }

  /** A worker's bundles up to `at`: whole bundles in place, numbered in order. */
  ghost predicate LaneTo(lane: seq<Whole>, seed: Word, worker: nat, range: WorkerRange, recordBytes: nat, at: nat) {
    && |seed| == 64 && recordBytes > 0 && LaneOf(lane, worker) && Numbered(lane, seed, worker)
    && LanePlaced(lane, seed, range, recordBytes) && Tiles(LaneRecords(lane), seed, range.offset, at)
    && at == Boundary(range.offset, range.bytes, BundleBytes(recordBytes), |lane|)
    && |lane| <= CeilDiv(range.bytes, BundleBytes(recordBytes))
  }

  lemma LaneDone(lane: seq<Whole>, seed: Word, worker: nat, range: WorkerRange, recordBytes: nat)
    requires |seed| == 64 && LaneTo(lane, seed, worker, range, recordBytes, range.offset + range.bytes)
    ensures LaneFramed(lane, seed, worker, range, recordBytes)
  {
    hide Tiles, LaneRecords, LaneOf, Numbered, CeilDiv, LanePlaced;
    CeilAbove(range.bytes, BundleBytes(recordBytes), |lane|);
  }

  /** A bundle short of the slab's end is one of the count, and ends where the next starts. */
  lemma BundleCount(from: nat, length: nat, most: nat, i: nat)
    requires most > 0 && Boundary(from, length, most, i) < from + length
    ensures i < CeilDiv(length, most)
    ensures Boundary(from, length, most, i) + (if most < length - i * most then most else length - i * most)
         == Boundary(from, length, most, i + 1)
    ensures Boundary(from, length, most, i) == from + i * most
  {
    hide CeilDiv;
    CeilAbove(length, most, i);
    assert (i + 1) * most == i * most + most;
  }

  lemma NumberedMore(lane: seq<Whole>, whole: Whole, seed: Word, worker: nat)
    requires Numbered(lane, seed, worker) && whole.bundle.id == BundleId(seed, worker, Chunk(|lane|))
    ensures Numbered(lane + [whole], seed, worker) && NextChunk(Chunk(|lane| + 1)) == Chunk(|lane| + 2)
  {
  }

  lemma LaneStart(seed: Word, range: WorkerRange, recordBytes: nat, worker: nat)
    requires |seed| == 64 && recordBytes > 0
    ensures LaneTo([], seed, worker, range, recordBytes, range.offset)
    ensures Chunk(0) == 0 && NextChunk(0) == Chunk(1)
  {
  }

  /** A worker's bundle ids are pairwise distinct exactly when it frames at most
      2^32 bundles, that is when its slab is no more than that many full bundles. */
  lemma IdsDistinct(lane: seq<Whole>, seed: Word, worker: nat, slab: nat, recordBytes: nat)
    requires Numbered(lane, seed, worker) && recordBytes > 0
    requires |lane| == CeilDiv(slab, BundleBytes(recordBytes))
    ensures (forall i, j :: 0 <= i < j < |lane| ==> lane[i].bundle.id != lane[j].bundle.id)
            <==> |lane| <= 0x1_0000_0000
    ensures |lane| <= 0x1_0000_0000 <==> slab <= 0x1_0000_0000 * (16 * recordBytes)
  {
    hide CeilDiv;
    CeilAbove(slab, BundleBytes(recordBytes), CHUNK_MAX + 1);
    if |lane| > CHUNK_MAX + 1 {
      assert lane[CHUNK_MAX].bundle.id == lane[CHUNK_MAX + 1].bundle.id;
    }
  }

  lemma LaneGrows(lane: seq<Whole>, whole: Whole, seed: Word, recordBytes: nat, range: WorkerRange, at: nat, worker: nat)
    requires LaneTo(lane, seed, worker, range, recordBytes, at) && |seed| == 64
    requires Frames(whole.bundle, whole.records, seed, recordBytes) && whole.bundle.offset == at
    requires whole.bundle.id == BundleId(seed, worker, Chunk(|lane|))
    requires var end, most := range.offset + range.bytes, BundleBytes(recordBytes);
             && 0 < whole.bundle.length <= most && at + whole.bundle.length <= end
             && (at + whole.bundle.length < end ==> whole.bundle.length == most)
    ensures LaneTo(lane + [whole], seed, worker, range, recordBytes, at + whole.bundle.length)
    ensures NextChunk(Chunk(|lane| + 1)) == Chunk(|lane| + 2)
  {
    hide Tiles, LaneRecords, LaneOf, Numbered, CeilDiv, Frames, Boundary, Chunk, NextChunk, LanePlaced, BundlePlaced;
    LaneAppend(lane, whole);
    FramedBundle(lane, whole, seed, recordBytes, worker);
    TilesJoin(LaneRecords(lane), whole.records, seed, range.offset, at, at + whole.bundle.length);
    NumberedMore(lane, whole, seed, worker);
    BundleCount(range.offset, range.bytes, BundleBytes(recordBytes), |lane|);
    PlacedMore(lane, whole, seed, range, recordBytes);
  }

  lemma PlacedMore(lane: seq<Whole>, whole: Whole, seed: Word, range: WorkerRange, recordBytes: nat)
    requires |seed| == 64 && LanePlaced(lane, seed, range, recordBytes)
    requires Frames(whole.bundle, whole.records, seed, recordBytes)
    requires whole.bundle.offset == range.offset + |lane| * BundleBytes(recordBytes)
    requires whole.bundle.offset + whole.bundle.length
          == Boundary(range.offset, range.bytes, BundleBytes(recordBytes), |lane| + 1)
    ensures LanePlaced(lane + [whole], seed, range, recordBytes)
  {
    hide Frames, Boundary, BundleBytes;
    forall i | 0 <= i < |lane| + 1 ensures BundlePlaced((lane + [whole])[i], seed, range, recordBytes, i) {
      if i < |lane| { assert BundlePlaced(lane[i], seed, range, recordBytes, i); }
    }
  }

  lemma FramedBundle(lane: seq<Whole>, whole: Whole, seed: Word, recordBytes: nat, worker: nat)
    requires |seed| == 64 && Frames(whole.bundle, whole.records, seed, recordBytes) && whole.bundle.id.worker == worker
    requires LaneOf(lane, worker)
    ensures LaneOf(lane + [whole], worker)
    ensures Tiles(whole.records, seed, whole.bundle.offset, whole.bundle.offset + whole.bundle.length)
  {
    hide Tiles;
  }

  /** Record sizes the ranged path accepts: whole groups, up to three. */
  predicate RangedRecordBytes(bytes: nat) {
    bytes != 0 && bytes % GROUP_BYTES == 0 && bytes <= MAX_RANGED_RECORD_BYTES
  }

  /** One, two or three groups. */
  lemma RangedAre(bytes: nat)
    ensures RangedRecordBytes(bytes) <==> bytes in {65_536, 131_072, 196_608}
  {
  }

  /** Every lane's records, in worker order. */
  function AllRecords(lanes: seq<seq<Whole>>): seq<DataRecord> {
    if lanes == [] then [] else AllRecords(lanes[..|lanes| - 1]) + LaneRecords(lanes[|lanes| - 1])
  }

  lemma AllAppend(lanes: seq<seq<Whole>>, lane: seq<Whole>)
    ensures AllRecords(lanes + [lane]) == AllRecords(lanes) + LaneRecords(lane)
  {
    assert (lanes + [lane])[..|lanes|] == lanes;
  }

  /** The slab of worker w. */
  ghost function Slab(objectBytes: nat, workers: nat, w: nat): WorkerRange
    requires workers > 0 && w < workers <= GroupsOf(objectBytes)
  {
    var groups := GroupsOf(objectBytes);
    var start := SlabStart(objectBytes, groups / workers, groups % workers, w);
    var end := SlabStart(objectBytes, groups / workers, groups % workers, w + 1);
    WorkerRange(start, if start <= end then end - start else 0)
  }

  /** Every worker's lane in its slab, and all records together tiling the object. */
  ghost predicate Produced(lanes: seq<seq<Whole>>, seed: Word, objectBytes: nat, recordBytes: nat) {
    && |seed| == 64 && 0 < |lanes| <= GroupsOf(objectBytes)
    && (forall w :: 0 <= w < |lanes| ==> LaneFramed(lanes[w], seed, w, Slab(objectBytes, |lanes|, w), recordBytes))
    && Tiles(AllRecords(lanes), seed, 0, objectBytes)
  }

  /** All workers' producers. Their records tile the object: in offset order they
      are the object the subject hash was taken over. */
  method ParallelObject(seed: Word, objectBytes: nat, workers: nat, recordBytes: nat)
    returns (lanes: Option<seq<seq<Whole>>>)
    requires |seed| == 64 && objectBytes <= U64_MAX
    ensures lanes.Some? <==> 0 < workers <= GroupsOf(objectBytes) && recordBytes in {65_536, 131_072, 196_608}
    ensures lanes.Some? ==>
              && |lanes.value| == workers && Produced(lanes.value, seed, objectBytes, recordBytes)
              && Payloads(AllRecords(lanes.value)) == ObjectBytes(seed, 0, objectBytes)
  {
    hide ObjectBytes, Payloads, LaneRecords, LaneFramed, AllRecords, Tiles, RangedRecordBytes, GroupsOf, Covers,
      RangeStart, Slab;
    RangedAre(recordBytes);
    var ranges := WorkerRanges(objectBytes, workers);
    if ranges.None? || !RangedRecordBytes(recordBytes) { return None; }
    var out: seq<seq<Whole>> := [];
    NoLanes(seed);
    ghost var at: nat := 0;
    RangeEdges(ranges.value, objectBytes);
    for w := 0 to workers
      invariant |out| == w && Tiles(AllRecords(out), seed, 0, at)
      invariant forall v :: 0 <= v < w ==> LaneFramed(out[v], seed, v, Slab(objectBytes, workers, v), recordBytes)
      invariant at == RangeStart(ranges.value, w)
    {
      var range := ranges.value[w];
      RangeEndsInside(ranges.value, objectBytes, w);
      var lane := DrainWorker(seed, recordBytes, range, w);
      AllAppend(out, lane.value);
      LaneTiles(lane.value, seed, w, range, recordBytes);
      TilesJoin(AllRecords(out), LaneRecords(lane.value), seed, 0, at, at + range.bytes);
      out := out + [lane.value];
      at := at + range.bytes;
    }
    TilesBytes(AllRecords(out), seed, 0, objectBytes);
    lanes := Some(out);
  }

  lemma LaneTiles(lane: seq<Whole>, seed: Word, worker: nat, range: WorkerRange, recordBytes: nat)
    requires |seed| == 64 && LaneFramed(lane, seed, worker, range, recordBytes)
    ensures Tiles(LaneRecords(lane), seed, range.offset, range.offset + range.bytes)
  {
  }

  lemma NoLanes(seed: Word)
    requires |seed| == 64
    ensures Tiles(AllRecords([]), seed, 0, 0)
  {
  }

  ghost function RangeStart(ranges: seq<WorkerRange>, w: nat): nat
    requires w <= |ranges|
  {
    if w == 0 then 0 else ranges[w - 1].offset + ranges[w - 1].bytes
  }

  lemma RangeEdges(ranges: seq<WorkerRange>, total: nat)
    requires Covers(ranges, total)
    ensures RangeStart(ranges, 0) == 0 && RangeStart(ranges, |ranges|) == total
  {
  }

  lemma RangeEndsInside(ranges: seq<WorkerRange>, total: nat, w: nat)
    requires Covers(ranges, total) && w < |ranges|
    ensures ranges[w].offset == RangeStart(ranges, w) && ranges[w].offset % WORD_BYTES == 0
    ensures RangeStart(ranges, w + 1) == ranges[w].offset + ranges[w].bytes
    ensures ranges[w].offset + ranges[w].bytes <= total
    decreases |ranges| - w
  {
    AlignedGroup(ranges[w].offset);
    if w < |ranges| - 1 { RangeEndsInside(ranges, total, w + 1); }
  }

  lemma AlignedGroup(offset: nat)
    requires offset % GROUP_BYTES == 0
    ensures offset % WORD_BYTES == 0
  {
  }

  // ----- bundle identifiers over a whole run

  /** The largest slab, which is the first worker's. */
  function LargestSlab(objectBytes: nat, workers: nat): nat
    requires workers > 0
  {
    var slab := GROUP_BYTES * CeilDiv(GroupsOf(objectBytes), workers);
    if slab < objectBytes then slab else objectBytes
  }

  lemma SlabSizes(objectBytes: nat, workers: nat, w: nat)
    requires w < workers <= GroupsOf(objectBytes)
    ensures Slab(objectBytes, workers, w).bytes <= LargestSlab(objectBytes, workers)
    ensures Slab(objectBytes, workers, 0).bytes == LargestSlab(objectBytes, workers)
  {
    hide GroupsOf, CeilDiv;
    var groups := GroupsOf(objectBytes);
    var per, extra := groups / workers, groups % workers;
    Division(groups, workers);
    CeilIs(groups, workers, per, extra);
    assert per * (w + 1) == per * w + per;
    assert per * 0 == 0 && per * 1 == per;
  }

  /** All bundle ids of a run are pairwise distinct exactly when the largest slab
      is no more than 2^32 full bundles. */
  lemma RunIdsDistinct(lanes: seq<seq<Whole>>, seed: Word, objectBytes: nat, recordBytes: nat)
    requires Produced(lanes, seed, objectBytes, recordBytes)
    ensures DistinctIds(lanes) <==> LargestSlab(objectBytes, |lanes|) <= 0x1_0000_0000 * (16 * recordBytes)
  {
    hide LargestSlab, Slab, BundleBytes, CeilDiv, Tiles, Numbered, LaneFramed;
    BundleIs(recordBytes);
    forall w: nat | w < |lanes|
      ensures LaneNumbers(lanes, seed, w)
      ensures LargestSlab(objectBytes, |lanes|) <= (CHUNK_MAX + 1) * BundleBytes(recordBytes) ==>
                |lanes[w]| <= CHUNK_MAX + 1
      ensures w == 0 && |lanes[0]| <= CHUNK_MAX + 1 ==>
                LargestSlab(objectBytes, |lanes|) <= (CHUNK_MAX + 1) * BundleBytes(recordBytes)
    {
      SlabSizes(objectBytes, |lanes|, w);
      LaneSize(lanes, seed, objectBytes, recordBytes, w);
    }
    hide Produced;
    assert LaneNumbers(lanes, seed, 0);
    if LargestSlab(objectBytes, |lanes|) <= (CHUNK_MAX + 1) * BundleBytes(recordBytes) {
      forall v, i, w, j | InLane(lanes, v, i) && InLane(lanes, w, j) && lanes[v][i].bundle.id == lanes[w][j].bundle.id
        ensures v == w && i == j
      {
        assert LaneNumbers(lanes, seed, v) && LaneNumbers(lanes, seed, w);
      }
    } else {
      assert InLane(lanes, 0, CHUNK_MAX) && InLane(lanes, 0, CHUNK_MAX + 1);
      assert lanes[0][CHUNK_MAX].bundle.id == lanes[0][CHUNK_MAX + 1].bundle.id;
    }
  }

  ghost predicate InLane(lanes: seq<seq<Whole>>, w: int, i: int) {
    0 <= w < |lanes| && 0 <= i < |lanes[w]|
  }

  /** No two bundles of a run share an id. */
  ghost predicate DistinctIds(lanes: seq<seq<Whole>>) {
    forall v, i, w, j :: InLane(lanes, v, i) && InLane(lanes, w, j) && lanes[v][i].bundle.id == lanes[w][j].bundle.id
                         ==> v == w && i == j
  }

  ghost predicate LaneNumbers(lanes: seq<seq<Whole>>, seed: Word, w: nat)
    requires w < |lanes|
  {
    forall i :: 0 <= i < |lanes[w]| ==> lanes[w][i].bundle.id == BundleId(seed, w, Chunk(i))
  }

  lemma LaneSize(lanes: seq<seq<Whole>>, seed: Word, objectBytes: nat, recordBytes: nat, w: nat)
    requires Produced(lanes, seed, objectBytes, recordBytes) && w < |lanes|
    ensures LaneNumbers(lanes, seed, w)
    ensures |lanes[w]| <= CHUNK_MAX + 1 <==>
            Slab(objectBytes, |lanes|, w).bytes <= (CHUNK_MAX + 1) * BundleBytes(recordBytes)
  {
    hide Tiles, Slab, CeilDiv, LanePlaced, LaneOf;
    assert LaneFramed(lanes[w], seed, w, Slab(objectBytes, |lanes|, w), recordBytes);
    CeilAbove(Slab(objectBytes, |lanes|, w).bytes, BundleBytes(recordBytes), CHUNK_MAX + 1);
  }
}
