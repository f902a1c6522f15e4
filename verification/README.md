# Verified models of VOT

VOT moves large objects between peers and proves, at every step, that what
arrived is what was sent. This project models seven of its cores in Dafny and
proves what they are for.

| modules | what they model |
|---|---|
| `Gf256`, `LinearSystem`, `ErasureCode`, `ErasureDecoder` | the erasure code over GF(2^8): tables, Cauchy repair rows, encode, and decode by Gauss-Jordan elimination |
| `Hashing`, `BlakeTree`, `BlakeRange`, `ShaTree`, `ShaRange` | the BLAKE3 group tree and the SHA-256 piece tree, their range provers and range verifiers |
| `CatalogFormat`, `Catalog`, `CatalogParser`, `CatalogAccess`, `CatalogRefusals` | the static proof catalog: builder, full parser, random-access parser, how the two parsers compare, and what is refused how |
| `JumpAhead`, `ObjectStream`, `WordValues`, `Reassembly`, `FrameOrder` | the benchmark object: its generator and jump-ahead, slabs, parallel producers, and reassembly of interleaved lanes |
| `Drive`, `SessionPool` | the loop that drives one session under a stall budget, and the pool of concurrent sessions |
| `Receipts` | publication of a receipt and its summary through prepared files, with crashes |
| `Cbor`, `CborRefusals`, `Grammar`, `Scopes`, `ScopeCodec`, `CapabilityGrammar`, `Capabilities`, `DecoderRefusals`, `Layouts` | deterministic CBOR (section 4.2.1 of RFC 8949), scopes, capabilities and the signed envelope: encoders, decoders, what is refused how, and the bytes |
| `CommitRelation` | the commit state machine over any transition table |

`Powers`, `BigEndian` and `Wrappers` hold shared arithmetic, integers as bytes, and
the option type.

How the model says things:

- **Field elements** are bytes of eight bits. Multiplication is defined without
  tables, as carry-less multiplication reduced by 0x11D; the table form is
  proved equal to it.
- **Hashes** are a free algebra. A digest is 32 cells that name the term hashed
  and their place in it, so "no collision" is injectivity of constructors, and a
  proof is ordinary bytes that may or may not be digest cells.
- **Slices** follow Python's rule: negative bounds count from the end, and both
  clamp.
- **Integers** are unbounded, and every 16-, 32- or 64-bit bound, saturation or
  checked operation that matters is written out.
- **Code that updates in place** is a class with fields or a method over an
  array, proved against a function on values. Theorems about whole runs are
  lemmas about those functions.
- **Concurrency** is a state machine: the main thread and each session's thread
  take steps in any order, and a run is any sequence of enabled steps.
- **Crashes** are a budget of file operations. When it is spent the process is
  gone and the files stay as they are.
- **A decoder** is a method over a reader with a moving offset. It is proved
  against a function from bytes to an outcome, which says which refusal every
  input gets; that the function accepts a value exactly on its canonical bytes is
  a lemma.

The source's comment calls bundle identifiers unique within a run. Chunk numbers
saturate at 32 bits, so that holds if and only if the largest slab is at most 2^32
full bundles; the code is modelled as it is, and the exact condition is proved.

Random access to a catalog accepts some storage the full parser refuses: bytes
after the last proof that no entry refers to. What the full parser asks beyond
random access is stated exactly.

## Model

| member | source | states |
|---|---|---|
| Gf256.BuildTables | tools/validate_fec_vectors.py:30-43 | the tables hold the powers of 2 modulo 0x11D over two cycles and their logarithms, which needs the generator's order to be 255; as integers each entry is the one before shifted left and reduced, starting at 1 |
| Gf256.DoubleInt | tools/validate_fec_vectors.py:37-39 | a doubling of the eight bits is the program's on integers: shift left, and on reaching 0x100 exclusive-or with 0x11D |
| Gf256.XorInt | tools/validate_fec_vectors.py:97 | addition of the eight bits is exclusive or of the integers |
| Gf256.GfMul | tools/validate_fec_vectors.py:49-52 | table multiplication is carry-less multiplication modulo 0x11D, for all 65,536 pairs |
| Gf256.GfInv | tools/validate_fec_vectors.py:55-58 | refuses exactly zero, and otherwise returns the multiplicative inverse |
| Gf256.MulAssociates | tools/validate_fec_vectors.py:49-52 | multiplication is associative |
| Gf256.MulCommutes | tools/validate_fec_vectors.py:49-52 | multiplication is commutative |
| Gf256.LogExists | tools/validate_fec_vectors.py:34-40 | every nonzero byte is a power of the generator below 255 |
| ErasureCode.CauchyRow | tools/validate_fec_vectors.py:65-68 | entry j of repair row i is the inverse of (k + i) + j, and none is zero |
| ErasureCode.RowEntry | tools/validate_fec_vectors.py:65-68 | as integers, entry j of repair row i is the inverse of (k + i) ^ j |
| ErasureCode.SingleSource | tools/validate_fec_vectors.py:84-99 | the first repair symbol of a single source symbol is that symbol, and no other is |
| ErasureCode.Encode | tools/validate_fec_vectors.py:84-99 | refuses exactly the illegal geometries and ragged sources; otherwise every repair byte is the Cauchy combination of its column |
| ErasureCode.EncodeRow | tools/validate_fec_vectors.py:90-98 | accumulating in place, symbol by symbol, gives that combination |
| ErasureCode.ChosenRowsIndependent | tools/validate_fec_vectors.py:123-132 | the k chosen rows, identity and Cauchy, have only the zero vector in common kernel, for every legal choice |
| ErasureCode.ChosenFirst | tools/validate_fec_vectors.py:123-125 | the symbols chosen to decode from leave out no received source symbol, and no received repair symbol below a chosen one |
| LinearSystem.CauchySystem | tools/validate_fec_vectors.py:65-68 | a Cauchy system with distinct points has only the zero solution: eliminating one unknown leaves a smaller Cauchy system |
| LinearSystem.SubtractKeepsKernel | tools/validate_fec_vectors.py:139-142 | subtracting a multiple of one row from another keeps the solution set |
| LinearSystem.SwapKeepsKernel | tools/validate_fec_vectors.py:136 | swapping two rows keeps the solution set |
| LinearSystem.ScaleKeepsKernel | tools/validate_fec_vectors.py:137-138 | scaling a row by a nonzero factor keeps the solution set |
| ErasureDecoder.PivotExists | tools/validate_fec_vectors.py:135 | in every column of an independent system a nonzero pivot is found |
| ErasureDecoder.Eliminate | tools/validate_fec_vectors.py:134-142 | elimination ends with the identity on the unknowns and the same solution set |
| ErasureDecoder.Decode | tools/validate_fec_vectors.py:102-143 | the exact outcome for every input: geometry and symbol refusals, too few symbols, or the one source whose encoding agrees with the chosen symbols; for honest symbols that is the original source |
| BlakeTree.SplitScales | tools/verify_wave1_vectors.py:102-103 | splitting a node's chunks gives 64 times the split of its groups |
| BlakeTree.NodeIsSubtree | tools/verify_wave1_vectors.py:128-140 | at every node whose groups are present, the group tree's value is the chunk tree's |
| BlakeTree.RootIsTopNode | tools/verify_wave1_vectors.py:117-125 | above one group, the BLAKE3 hash is the root output of the group tree's two top nodes |
| BlakeTree.SubtreeInjective | tools/verify_wave1_vectors.py:106-115 | equal subtree values mean equal data at the same place, whatever their lengths |
| BlakeTree.SubtreeReadsBack | tools/verify_wave1_vectors.py:106-115 | the digest of a subtree gives back its bytes chunk by chunk, left to right, numbered from where it starts, out of a tree whose left sides are full powers of two |
| BlakeTree.HashReadsBack | tools/verify_wave1_vectors.py:117-125 | the hash is a root output, and gives back the object's 1 KiB chunks in order, numbered from zero, out of such a tree |
| BlakeRange.Prove | tools/validate_static_proof_catalog_vectors.py:104-126 | the prover writes the pre-order list of the parents that meet the range |
| BlakeRange.VerifyTree | tools/validate_static_proof_catalog_vectors.py:162-205 | the cursor-driven verifier computes the recursive acceptance predicate over any leaf values |
| BlakeRange.VerifyRange | tools/verify_wave1_vectors.py:160-198 | the same verifier over covered bytes, with the one-group case |
| BlakeRange.AcceptsTreeExact | tools/validate_static_proof_catalog_vectors.py:175-205 | against the object's root, accepted if and only if the covered leaves are the object's and the proof is the prover's |
| BlakeRange.RangeExact | tools/verify_wave1_vectors.py:160-198 | for every valid aligned range, accepted if and only if the covered bytes are the object's and the proof is byte for byte the prover's |
| BlakeRange.ProofSize | tools/validate_static_proof_catalog_vectors.py:104-126 | how many parents a range of at most 64 groups can need in a tree of given depth |
| BlakeRange.FourGroups | tools/validate_static_proof_catalog_vectors.py:111-122 | the order of a proof, on four groups: the parent before what is under it, the left side before the right |
| ShaTree.ReduceHashes | tools/verify_wave1_vectors.py:209-212 | pairing layer by layer computes the balanced tree's root |
| ShaTree.ReducePairUp | tools/verify_wave1_vectors.py:209-212 | pairing up once leaves the root as it was |
| ShaTree.PieceTree | tools/verify_wave1_vectors.py:215-229 | above one piece, the zero-padded piece tree has the BEP 52 root of the 16 KiB leaves |
| ShaTree.ZeroSubtree | tools/verify_wave1_vectors.py:232-237 | the doubled zero piece is the root of that many zero pieces |
| ShaTree.ShaRootInjective | tools/verify_wave1_vectors.py:215-220 | equal roots of equally long objects mean equal objects |
| ShaTree.LayerReadsBack | tools/verify_wave1_vectors.py:205-212 | a root gives back its layer, node by node and in order |
| ShaTree.RootReadsBack | tools/verify_wave1_vectors.py:215-220 | the root of an object gives back, in order, the SHA-256 of each 16 KiB of it, and zero hashes up to the next power of two |
| ShaTree.PieceHashInjective | tools/verify_wave1_vectors.py:223-226 | equal piece hashes of equally long pieces mean equal pieces |
| ShaRange.ProofWindow | tools/verify_wave1_vectors.py:240-248 | terminates with the window: an aligned power of two that holds the range, and inside the tree wherever the range is |
| ShaRange.WindowSmallest | tools/verify_wave1_vectors.py:240-248 | no narrower admissible window holds the range |
| ShaRange.Prove | tools/validate_static_proof_catalog_vectors.py:141-157 | the prover writes the window's other leaves, then the climb's siblings |
| ShaRange.VerifyTree | tools/validate_static_proof_catalog_vectors.py:208-248 | the cursor-driven verifier computes the recursive acceptance predicate over any leaf values |
| ShaRange.VerifyRange | tools/verify_wave1_vectors.py:251-287 | the same verifier over covered bytes, with the one-piece case, for any offset, length and covered bytes |
| ShaRange.AcceptsTreeExact | tools/validate_static_proof_catalog_vectors.py:221-248 | against the layer's root, accepted if and only if the covered leaves are the layer's and the proof is the prover's |
| ShaRange.RangeExact | tools/verify_wave1_vectors.py:251-287 | for every valid aligned range, accepted if and only if the covered bytes are the object's and the proof is byte for byte the prover's |
| ShaRange.ProofSize | tools/validate_static_proof_catalog_vectors.py:141-157 | a proof of at most 64 aligned pieces in a tree of height h is a multiple of 32 bytes and at most 63 + h hashes |
| ShaRange.EightPieces | tools/validate_static_proof_catalog_vectors.py:148-157 | the order of a proof, on eight pieces: the window's other leaves, then the siblings upward, and nothing past the last piece |
| CatalogFormat.ReadPackedHeader | tools/validate_static_proof_catalog_vectors.py:45-47 | a header whose fields fit reads back from its 128 bytes |
| CatalogFormat.HeaderLayout | tools/validate_static_proof_catalog_vectors.py:45 | where each of the sixteen header fields lies |
| CatalogFormat.FieldBytes | tools/validate_static_proof_catalog_vectors.py:45-46 | a field's first byte is its value's most significant, its last the least |
| CatalogFormat.MaximaTight | tools/validate_static_proof_catalog_vectors.py:36-42 | the format's maxima are exactly what the longest object needs |
| CatalogFormat.PackReadHeader | tools/validate_static_proof_catalog_vectors.py:342-347 | 128 plain bytes are the packing of the header read from them |
| CatalogFormat.ReadPackedEntry | tools/validate_static_proof_catalog_vectors.py:46-48 | an entry whose fields fit reads back from its 16 bytes |
| CatalogFormat.EntryLayout | tools/validate_static_proof_catalog_vectors.py:46 | where each entry field lies |
| CatalogFormat.PackReadEntry | tools/validate_static_proof_catalog_vectors.py:378 | 16 plain bytes are the packing of the entry read from them |
| CatalogFormat.Geometry | tools/validate_static_proof_catalog_vectors.py:77-84 | refuses exactly the lengths above the maximum; otherwise count and index length are within their bounds |
| Catalog.RecordRange | tools/validate_static_proof_catalog_vectors.py:326-329 | every record is a valid aligned range of at most 64 groups |
| Catalog.VerifyRecord | tools/validate_static_proof_catalog_vectors.py:315-336 | dispatch by suite to the two tree verifiers |
| Catalog.RecordExact | tools/validate_static_proof_catalog_vectors.py:315-336 | against the payload's own root, a record's proof is accepted if and only if it is the prover's |
| Catalog.RecordSize | tools/validate_static_proof_catalog_vectors.py:279 | for every object up to 2^63 - 1 bytes and every record, both suites' proofs are multiples of 32 and at most 8192 bytes |
| CatalogParser.CatalogFits | tools/validate_static_proof_catalog_vectors.py:294-298 | no catalog exceeds the format's maxima, and every header field fits |
| CatalogParser.BuildCatalog | tools/validate_static_proof_catalog_vectors.py:251-308 | builds header, index and proofs, or refuses exactly the unknown suites and over-long objects; its size assertions never fail |
| CatalogParser.ParseAndVerify | tools/validate_static_proof_catalog_vectors.py:339-400 | the full parser's outcome, error by error, on every blob |
| CatalogParser.BuiltIsAccepted | tools/validate_static_proof_catalog_vectors.py:339-400 | every built catalog is accepted |
| CatalogParser.CatalogExact | tools/validate_static_proof_catalog_vectors.py:339-400 | under the object's identity the full parser accepts a blob if and only if it is the built catalog |
| CatalogParser.RandomAccess | tools/validate_static_proof_catalog_vectors.py:403-474 | where the full parser accepts, a read of any record accepts, gets the same proof bytes, and reads only the header, that entry and that proof, all inside the catalog |
| CatalogAccess.FullIffSelected | tools/validate_static_proof_catalog_vectors.py:339-474 | the full parser accepts if and only if the header is accepted, the storage has the length it says, random access accepts every record, and the proofs chain from the start of the proof blob to its end |
| CatalogAccess.PaddingRefused | tools/validate_static_proof_catalog_vectors.py:391-392 | that chain is needed: to any built catalog any unreferenced bytes may be added within the bounds, random access still accepts every record, and the full parser answers malformed |
| CatalogRefusals.OtherIdentity | tools/validate_static_proof_catalog_vectors.py:354-355 | under any other identity a built catalog is an identity mismatch |
| CatalogRefusals.PrefixUnavailable | tools/validate_static_proof_catalog_vectors.py:340-370 | every proper prefix of a built catalog is unavailable |
| CatalogRefusals.TrailingMalformed | tools/validate_static_proof_catalog_vectors.py:371-372 | a built catalog with anything after it is malformed |
| CatalogRefusals.ChangedProof | tools/validate_static_proof_catalog_vectors.py:394-400 | any change behind the index of a built catalog, and only there, is an invalid proof |
| CatalogRefusals.ChangedField | tools/validate_static_proof_catalog_vectors.py:348-368 | which outcome each header field gives when it alone is changed, to any other value |
| CatalogRefusals.FirstBytes | tools/validate_static_proof_catalog_vectors.py:299-303 | the first 24 bytes of every built catalog, and its last reserved ones |
| CatalogRefusals.SelectedExactly | tools/validate_static_proof_catalog_vectors.py:403-474 | what a random-access read answers, whatever the storage gives it behind an honest header: by its length, the ordinal, the entry as read and the proof as read |
| CatalogParser.SelectedSound | tools/validate_static_proof_catalog_vectors.py:403-474 | whatever storage answers, an accepted random-access read got exactly the prover's proof |
| JumpAhead.Advance | crates/vot-bench-driver/src/lib.rs:740-757 | square-and-multiply equals n applications of the step, for all 64-bit states and counts |
| JumpAhead.Apply | crates/vot-bench-driver/src/lib.rs:760-768 | the sum of the columns selected by the state's bits |
| JumpAhead.Square | crates/vot-bench-driver/src/lib.rs:771-777 | a matrix of k draws becomes the matrix of 2k draws |
| JumpAhead.StepsSum | crates/vot-bench-driver/src/lib.rs:730-735 | any number of steps is linear over GF(2) |
| WordValues.StepValue | crates/vot-bench-driver/src/lib.rs:730-735 | one draw on bits is one draw on 64-bit integers: exclusive or with the state shifted left by 13, then right by 7, then left by 17 |
| WordValues.FirstDraw | crates/vot-bench-driver/src/lib.rs:730-735 | the bits of the draw that follows state one |
| WordValues.StartValue | crates/vot-bench-driver/src/lib.rs:318-323 | the state a seed starts in, as an integer |
| WordValues.ObjectByteValue | crates/vot-bench-driver/src/lib.rs:335-348 | every byte of the object as an integer: the draws from the masked seed, each little-endian |
| ObjectStream.ObjectSource.At | crates/vot-bench-driver/src/lib.rs:326-333 | refuses exactly unaligned offsets; otherwise stands where the sequential source would |
| ObjectStream.ObjectSource.Fill | crates/vot-bench-driver/src/lib.rs:341-348 | the next bytes of the object, whole words drawn |
| ObjectStream.WorkerRanges | crates/vot-bench-driver/src/lib.rs:359-383 | refuses exactly when a worker would have nothing; otherwise the slabs are nonempty, group-aligned, contiguous, cover the object, and give the first workers one group more when groups do not divide evenly |
| ObjectStream.RecordLengths | crates/vot-bench-driver/src/lib.rs:780-799 | full records, then a short one, summing to the object |
| ObjectStream.SequentialObject | crates/vot-bench-driver/src/lib.rs:467-481 | streaming group by group yields the object |
| ObjectStream.BundleProducer.NextBundle | crates/vot-bench-driver/src/lib.rs:552-565 | spent exactly at the slab's end; otherwise the next bundle starts where the last ended, its records tile its bytes in order, each at its own offset under the bundle's id with the object's bytes there, and there are as many as its length needs; a bundle short of the slab's end is full; the chunk number goes up by one until it saturates; a failure moves nothing |
| ObjectStream.BundleProducer.FrameRecords | crates/vot-bench-driver/src/lib.rs:567-594 | the records cut the bundle exactly: their number is its length over the record size, rounded up, and each carries its id, its index, its offset in the object and the bytes there |
| ObjectStream.DrainWorker | crates/vot-bench-driver/src/lib.rs:529-627 | one worker's records tile its slab end to end with the object's bytes, in as many bundles as full ones cover it, each under its own seed, worker and chunk number |
| ObjectStream.IdsDistinct | crates/vot-bench-driver/src/lib.rs:503-512 | a worker's bundle ids are pairwise distinct if and only if it frames at most 2^32 bundles, that is if and only if its slab is no more than that many full bundles |
| ObjectStream.RunIdsDistinct | crates/vot-bench-driver/src/lib.rs:503-512 | over all workers of a run, bundle ids are pairwise distinct if and only if the largest slab is at most 2^32 full bundles, with that slab in terms of object length and worker count |
| ObjectStream.ParallelObject | crates/vot-bench-driver/src/lib.rs:359-383 | worker by worker the records tile the object: each at its offset, no gap and no overlap, with the object's bytes; so their payloads in order are the sequential object, for every object length, worker count and record size the driver accepts |
| ObjectStream.InOffsetOrder | crates/vot-bench-driver/src/lib.rs:359-383 | records that are a tiling in some order, sorted by offset, are that tiling: any sorted order of them is the one that tiles |
| Reassembly.BundleReassembly.Take | crates/vot-bench-driver/src/lib.rs:683-725 | one frame's effect and answer, including a replaced bundle and a full table |
| Reassembly.TakeStep | crates/vot-bench-driver/src/lib.rs:683-725 | the next frame of any lane is never corruption, and the open bundles stay exactly the lanes' current ones |
| Reassembly.AnyInterleaving | crates/vot-bench-driver/src/lib.rs:672-726 | for every interleaving that keeps each lane's order: no corruption, at most one open bundle per lane, each lane's bundles completed in order with their records, and all of them, once each, when the lane is delivered whole |
| FrameOrder.CleanRun | crates/vot-bench-driver/src/lib.rs:683-725 | the converse: any run of frames is free of corruption if and only if every header finds its bundle closed and room for it, and every record finds its bundle open, said of the frames alone |
| FrameOrder.CompletedExact | crates/vot-bench-driver/src/lib.rs:708-721 | in such a run a record completes a bundle if and only if it is the last one needed, and the bundle is the one last opened under that id with its records in order |
| FrameOrder.OpenBounded | crates/vot-bench-driver/src/lib.rs:693-705 | whatever arrives, no more bundles are held open than the limit |
| Reassembly.DeliveredLanes | crates/vot-bench-driver/src/lib.rs:672-726 | when every lane is delivered whole, the completed bundles are the lanes, nothing is left open, and nothing was corrupt |
| Reassembly.Delivered | crates/vot-bench-driver/src/lib.rs:672-726 | however the lanes interleaved, when each is delivered whole the records of the completed bundles, sorted by offset, tile the object and join to its bytes |
| Reassembly.Reassemble | crates/vot-bench-driver/src/lib.rs:672-726 | feeding frames one by one gives the answers and open bundles the run specifies |
| Reassembly.Transfer | crates/vot-bench-driver/src/lib.rs:529-726 | end to end: what the producers frame, carried in any interleaving and reassembled with one slot per worker, arrives as records whose every order by offset tiles the object and joins to its bytes |
| Drive.DriveUntil | crates/vot-cli/src/drive.rs:138-190 | against any engine: ends at the first pass that ends it, each outcome exactly by what that pass answered; stalls exactly when waits and sleeps since the last progress change reach the budget; and survives no run of quiet passes as long as 64 + ceil(budget / 1 ms) + 1 |
| Drive.QuietRunEnds | crates/vot-cli/src/drive.rs:162-188 | the pass that makes a quiet run that long ends the loop |
| Drive.LimitReached | crates/vot-cli/src/drive.rs:162-188 | the limit is exact: an engine that spins with a backlog survives every shorter quiet run, and one without a backlog every run short of 64 + ceil(budget / 50 ms) + 1 |
| Drive.StallIsSilence | crates/vot-cli/src/drive.rs:164-168 | a stall is a stretch in which no progress was reported and whose waits and sleeps total the budget; when the last wait was no longer than asked, they overshoot it by at most one idle bound |
| SessionPool.StepKeeps | crates/vot-cli/src/drive.rs:664-858 | every step of the main thread or a session's thread keeps the pool's invariant |
| SessionPool.PoolSafety | crates/vot-cli/src/drive.rs:664-858 | over every run: at most eight sessions held, none joined twice, every announced session still held, no breach, no more sessions than the bound; and a session's end is waited for only with all eight held, or to retry an accept that failed beside some |
| SessionPool.EightAtOnce | crates/vot-cli/src/drive.rs:676-702 | up to eight clients that come at once are all served at once, under every bound that admits them |
| SessionPool.ServeVerdict | crates/vot-cli/src/drive.rs:809-815 | a serve that ended joined every session once, and answers with the first settled failure spoken for when bounded, else with the accept's failure |
| SessionPool.UnspokenVerdict | crates/vot-cli/src/drive.rs:865-925 | a failure surfaces exactly when its peer had spoken: a serve in which none did answers as its last accept did, a bounded one in which one did with the first of them |
| SessionPool.JoinOrder | crates/vot-cli/src/drive.rs:768-815 | over every run: joined, in hand and waiting sessions together are the announcements in order, none lost; the finish joins oldest first |
| SessionPool.FirstIsFirst | crates/vot-cli/src/drive.rs:895-916 | the recorded failure is the first in joining order whose peer had spoken |
| SessionPool.FinishedAnnounced | crates/vot-cli/src/drive.rs:837-843 | a finished session has an announcement waiting, which is why a breach cannot happen |
| SessionPool.WakeExact | crates/vot-cli/src/drive.rs:768-793 | a reap's wake in any state at all: an announcement is taken, silence is waited on, and sessions that finished without announcing are not waited for |
| SessionPool.NeverStuck | crates/vot-cli/src/drive.rs:768-806 | in every reachable state before the end some step other than a timeout is enabled |
| SessionPool.BoundedDeeds | crates/vot-cli/src/drive.rs:664-705 | in every run of a serve bounded to n sessions, at most 7n + 2 steps are anything but waiting |
| SessionPool.WaitsOnWork | crates/vot-cli/src/drive.rs:768-793 | a reap with no announcement to take is waiting on held sessions every one of which is still at work |
| SessionPool.CanEnd | crates/vot-cli/src/drive.rs:664-705 | every run of a bounded serve can be continued to its end |
| Receipts.LinkOrMatch | crates/vot-cli/src/util.rs:203-246 | links if absent, accepts an equal file, refuses a different one; never replaces |
| Receipts.FilesEqual | crates/vot-cli/src/util.rs:214-230 | equal contents, both within the bound; a missing file is an error, a longer one a difference |
| Receipts.ValidateFiles | crates/vot-cli/src/receipt_io.rs:262-281 | the receipt's verdict, then the summary's bytes, in that order |
| Receipts.Finalize | crates/vot-cli/src/receipt_io.rs:283-296 | result and files of an uninterrupted run, whichever of the four files are there; in any run no final file is replaced and prepared contents are not lost |
| Receipts.FinalizeAnswers | crates/vot-cli/src/receipt_io.rs:283-296 | what it answers and leaves for missing, conflicting and fresh files |
| Receipts.Recover | crates/vot-cli/src/receipt_io.rs:147-186 | the same for recovery, from any files whatever, with at most 18 operations |
| Receipts.RemovePreparation | crates/vot-cli/src/receipt_io.rs:188-194 | removes the file, or finds it gone |
| Receipts.ConvergingRecovers | crates/vot-cli/src/receipt_io.rs:147-186 | from anywhere on the way, one uninterrupted recovery publishes |
| Receipts.PublishedIsChecked | crates/vot-cli/src/receipt_io.rs:147-186 | recovery answers that it published if and only if the contents to check pass every check and no other file of the pair differs; exactly those contents are then published |
| Receipts.RecoveryAnswers | crates/vot-cli/src/receipt_io.rs:262-281 | what every other contents are answered with: the first thing wrong, a rejected receipt with its own rejection |
| Receipts.NothingToCheck | crates/vot-cli/src/receipt_io.rs:172-182 | without contents to check, false on no files at all and a refusal otherwise, changing nothing |
| Receipts.PublishThroughCrashes | crates/vot-cli/src/receipt_io.rs:147-194 | after any number of crashes, the next recovery that is let finish leaves exactly the two final files with the prepared contents, and nothing was replaced |
| Receipts.RecoversUnlessConflict | crates/vot-cli/src/receipt_io.rs:147-186 | with valid preparations, recovery succeeds if and only if neither final file conflicts |
| Receipts.FailureLeavesFiles | crates/vot-cli/src/receipt_io.rs:283-290 | a failed recovery changes nothing, except with valid preparations, no final receipt and a conflicting summary |
| Receipts.FailureCanPublish | crates/vot-cli/src/receipt_io.rs:283-290 | in that case the receipt is published and the recovery still fails |
| Cbor.ParseOfHead | crates/vot-cbor/src/lib.rs:76-98 | what the encoder writes, the reader reads back, whatever follows |
| Cbor.HeadOfParse | crates/vot-cbor/src/lib.rs:193-209 | a head that is read is the one shortest encoding of its value |
| Cbor.ItemExact | crates/vot-cbor/src/lib.rs:215-222 | an item is read if and only if its shortest encoding is in front |
| Cbor.PayloadExact | crates/vot-cbor/src/lib.rs:266-269 | a payload is read if and only if its head and bytes are in front, within the bound |
| Cbor.Reader.ReadHead | crates/vot-cbor/src/lib.rs:193-209 | exact result and error for every input, and exactly the head is consumed |
| Cbor.Reader.TypedHead | crates/vot-cbor/src/lib.rs:215-222 | exact result and error for every input, and exactly the head is consumed |
| Cbor.Reader.ReadInt | crates/vot-cbor/src/lib.rs:250-260 | exact result and error for every input, and exactly the integer's item is consumed |
| Cbor.IntExact | crates/vot-cbor/src/lib.rs:250-260 | an integer is read if and only if it is within 64 bits and its shortest item is in front |
| Cbor.Reader.ReadPayload | crates/vot-cbor/src/lib.rs:266-283 | exact result and error for bounded and for fixed-length payloads, and exactly head and payload are consumed |
| Cbor.Reader.ReadText | crates/vot-cbor/src/lib.rs:288-292 | exact result and error for every input, and exactly the text's item is consumed |
| Cbor.TextExact | crates/vot-cbor/src/lib.rs:288-292 | text is read if and only if it is within the bound, valid UTF-8, and its item is in front |
| Cbor.Reader.Count | crates/vot-cbor/src/lib.rs:298-304 | exact result and error for array and map sizes within a bound |
| Cbor.Reader.Require | crates/vot-cbor/src/lib.rs:310-340 | exact result and error for a head of one type and one value |
| Cbor.Reader.ReadNull | crates/vot-cbor/src/lib.rs:346-352 | exact result and error: null and nothing else |
| Cbor.Reader.Finish | crates/vot-cbor/src/lib.rs:364-370 | refuses exactly when something is left |
| Cbor.Writer.PutInt | crates/vot-cbor/src/lib.rs:106-114 | a signed integer becomes the unsigned or negative item its sign selects |
| Cbor.Writer.Head | crates/vot-cbor/src/lib.rs:76-98 | appends the shortest head |
| BigEndian.MostSignificantFirst | crates/vot-cbor/src/lib.rs:76-98 | in a byte string read as an integer the first byte is the most significant |
| CborRefusals.TruncatedHead | crates/vot-cbor/src/lib.rs:485-498 | every proper prefix of a head is truncated, never malformed |
| CborRefusals.WiderRefused | crates/vot-cbor/src/lib.rs:447-467 | a wider head than its value needs is not canonical, for every value, type and width |
| CborRefusals.ReservedMalformed | crates/vot-cbor/src/lib.rs:470-482 | reserved additional information is malformed |
| CborRefusals.WrongTypeReported | crates/vot-cbor/src/lib.rs:530-550 | an item of any other type is reported as the wrong type by every reader |
| CborRefusals.BoundsExact | crates/vot-cbor/src/lib.rs:553-574 | bounds admit their own maximum and refuse one past it; signed integers stop at 64 bits |
| CborRefusals.PayloadRefusals | crates/vot-cbor/src/lib.rs:266-292 | what a payload past its bound, of another length, or not UTF-8 is answered with |
| CborRefusals.TruncatedPayload | crates/vot-cbor/src/lib.rs:485-498 | a payload cut short is truncated |
| CborRefusals.NullExact | crates/vot-cbor/src/lib.rs:346-352 | null is one byte, and no other byte reads as null |
| CborRefusals.ShortEncodings | crates/vot-cbor/src/lib.rs:76-144 | one-byte items and short strings as listed in appendix A of RFC 8949 |
| CborRefusals.LongEncodings | crates/vot-cbor/src/lib.rs:76-98 | encodings listed in appendix A of RFC 8949 |
| Scopes.Validate | crates/vot-capability/src/model.rs:113-136 | the loop over neighbours decides strict separation of all pairs, and the bound, with the exact error |
| Scopes.WhichRefusal | crates/vot-capability/src/model.rs:113-136 | which refusal a scope gets, rule by rule, from its neighbours alone |
| Scopes.AllowsExact | crates/vot-capability/src/model.rs:142-150 | a validated scope allows a range if and only if it lets every byte of it through |
| Scopes.LengthBounds | crates/vot-capability/src/model.rs:126-132 | a validated scope lets nothing through past its length, and may reach its last byte |
| Scopes.AdjacentNotAllowed | crates/vot-capability/src/model.rs:121-125 | adjacent ranges would break that: their union is let through and a range across the seam is not allowed |
| ScopeCodec.WriteScope | crates/vot-capability/src/model.rs:152-172 | answers with the scope's verdict; writes its canonical items if and only if it is valid, else nothing |
| ScopeCodec.ReadScope | crates/vot-capability/src/model.rs:174-203 | the outcome, refusal and unread bytes that the grammar of scopes gives, on every input |
| Grammar.ScopeGot | crates/vot-capability/src/model.rs:174-203 | that grammar gives a scope if and only if the scope is valid and its canonical items are in front, and consumes exactly those |
| ScopeCodec.ScopeFits | crates/vot-capability/src/codec.rs:10-14 | a valid scope's encoding is at most 1280 bytes, within the 4096 its decoder imposes |
| ScopeCodec.EncodeScope | crates/vot-capability/src/codec.rs:10-14 | encodes exactly the valid scopes, and refuses the others with their verdict |
| ScopeCodec.DecodeScope | crates/vot-capability/src/codec.rs:20-28 | the exact outcome of every input: too long, the first refusal in reading order, or trailing bytes; what is accepted is a valid scope's canonical bytes |
| ScopeCodec.ScopeExact | crates/vot-capability/src/codec.rs:20-28 | an input decodes to a scope if and only if the scope is valid and the input is its canonical bytes |
| DecoderRefusals.JudgedScope | crates/vot-capability/src/model.rs:174-203 | a scope within the reader's bounds is answered with its verdict |
| DecoderRefusals.BadRange | crates/vot-capability/src/model.rs:174-203 | an empty range, or one whose end does not fit, is an invalid range |
| DecoderRefusals.WideSuite | crates/vot-capability/src/model.rs:174-203 | a suite of more than sixteen bits is refused by its number |
| DecoderRefusals.ScopeEdges | crates/vot-capability/src/codec.rs:20-28 | an input past 4096 bytes is too big, and anything after a valid scope trails |
| Layouts.ScopeLayout | crates/vot-capability/src/model.rs:152-172 | the canonical bytes of every valid scope, byte by byte |
| ScopeCodec.ScopeRoundTrip | crates/vot-capability/src/codec.rs:10-28 | a valid scope decodes from its encoding to itself |
| Capabilities.ValidateCapability | crates/vot-capability/src/model.rs:232-265 | the first rule broken, in the order they are checked |
| Capabilities.CanonicalBytes | crates/vot-capability/src/codec.rs:85-120 | encodes exactly the valid capabilities, in at most 2000 bytes |
| Capabilities.FromCanonicalBytes | crates/vot-capability/src/codec.rs:126-182 | the exact outcome of every input: the first refusal in reading order, trailing bytes, or the first rule broken; what is accepted is a valid capability's canonical bytes |
| Capabilities.CapabilityExact | crates/vot-capability/src/codec.rs:126-182 | an input decodes to a capability if and only if the capability is valid and the input is its canonical bytes |
| CapabilityGrammar.CapabilityGot | crates/vot-capability/src/codec.rs:126-182 | a capability is read off the front of some bytes if and only if its canonical items are there and fit the reader's bounds, and exactly those are consumed |
| DecoderRefusals.JudgedCapability | crates/vot-capability/src/codec.rs:126-182 | a readable capability is answered with the first rule it breaks, and with anything after it trails |
| DecoderRefusals.OneRuleBroken | crates/vot-capability/src/model.rs:232-265 | which refusal a capability gets that breaks one rule only |
| DecoderRefusals.RulesAtTheirEdges | crates/vot-capability/src/model.rs:232-265 | the edges at which each rule is still kept |
| DecoderRefusals.OtherVersion | crates/vot-capability/src/codec.rs:54-182 | a version other than zero is refused by its number, in capabilities and envelopes |
| DecoderRefusals.WideLimit | crates/vot-capability/src/codec.rs:126-182 | a limit whose identifier has more than sixteen bits is an invalid limit |
| Layouts.CapabilityLayout | crates/vot-capability/src/codec.rs:85-120 | the canonical bytes of every valid capability, byte by byte |
| Capabilities.CapabilityRoundTrip | crates/vot-capability/src/codec.rs:85-182 | a valid capability decodes from its canonical bytes to itself |
| Capabilities.Encode | crates/vot-capability/src/codec.rs:34-48 | encodes exactly the envelopes with a key identifier within bounds |
| Capabilities.Decode | crates/vot-capability/src/codec.rs:54-78 | the exact outcome of every input: too long, the first refusal in reading order, or trailing bytes; what is accepted is an envelope's canonical bytes |
| Capabilities.SignedExact | crates/vot-capability/src/codec.rs:54-78 | an input decodes to an envelope if and only if it is that envelope's canonical bytes, its key identifier is within bounds, and it is at most 49,152 bytes |
| DecoderRefusals.SignedEdges | crates/vot-capability/src/codec.rs:54-78 | an empty key identifier, an input past 49,152 bytes, and anything after an envelope each get their own refusal |
| Layouts.SignedLayout | crates/vot-capability/src/codec.rs:34-48 | the canonical bytes of every envelope, byte by byte |
| Capabilities.SignedRoundTrip | crates/vot-capability/src/codec.rs:34-78 | an envelope comes back if and only if its size is within that bound, the size in terms of its key identifier and payload |
| Capabilities.CanonicalEnvelopeFits | crates/vot-capability/src/codec.rs:54-57 | the envelope of a canonical capability always is |
| Capabilities.LongEnvelopeRefused | crates/vot-capability/src/codec.rs:54-57 | the bound in terms of the payload: past 49,075 bytes an envelope is written and then refused under every key identifier, up to there a one-byte identifier brings it back |
| CommitRelation.RejectionChangesNothing | tools/commit_relation.py:50-90 | a rejection leaves state, saved state and history as they were |
| CommitRelation.RefusalExact | tools/commit_relation.py:59-90 | which refusal each case gets, for every table and machine |
| CommitRelation.EntryExact | tools/commit_relation.py:64-90 | for every table and machine, a state without an event of its own is entered if and only if a recovery returns to it or a row that is not refused names it, and only the row's observation is recorded |
| CommitRelation.PathRuns | tools/commit_relation.py:83-90 | under every table, a machine sent along a path of rows ends where they lead, with what they record |
| CommitRelation.StepKeeps | tools/commit_relation.py:50-90 | for any assurance whose advances record it, every step keeps it on the record wherever it is stood in or saved, and the history only grows |
| CommitRelation.RunKeeps | tools/commit_relation.py:50-90 | the same over every run |
| CommitRelation.PublishedPerformed | tools/commit_relation.py:83-90 | over every run from New, under every table where Published is terminal and advances into it record it, published implies the profile's required assurance was performed |
| CommitRelation.SilentPublication | tools/commit_relation.py:83-90 | a table with one advance that publishes without recording breaks that |
| CommitRelation.TerminalAbsorbs | tools/commit_relation.py:61-62 | a terminal machine is unchanged by any further run |
| CommitRelation.RecoverRestores | tools/commit_relation.py:64-73 | a recovery recovered at once restores state and history, and the whole machine if and only if nothing was saved before |
| CommitRelation.ChannelledRuns | tools/commit_relation.py:50-90 | under a table like the committed one, publication is never refused for a missing predecessor, and every recovery restores the whole machine |
| CommitRelation.EntriesHaveCauses | tools/commit_relation.py:64-81 | over every such run, poisoned, aborted, recovery and linked states are entered by their own events from their own states, and only so |
| CommitRelation.CommittedIsSound | models/commit/relation.json:1-61 | the committed table meets the conditions, for every profile |
| CommitRelation.PublishedHistory | models/commit/relation.json:1-61 | over every run of the committed table, published means exactly the assurances up to the profile's required one were performed, once each and in order |
| CommitRelation.OwnPublishes | models/commit/relation.json:1-61 | and each profile's own sequence of events publishes with that history |

## Left out

- The BLAKE3 compression function and the SHA-256 rounds: only the tree structure above them is modelled.
- CatalogParser.CatalogExact: asks that integer fields of the blob be plain bytes, since a symbolic digest byte has no number of its own.
- CatalogParser.ParseAndVerify: asks that the payload held by the verifier be as long as the expected identity says; with another length the Python leaf lists are indexed out of range, which is an exception and not one of its outcomes.
- ShaRange.VerifyRange: a covered list indexed past its end, which raises in Python, is a refusal.
- ShaTree.ReduceHashes: modelled on layers whose size is a power of two, which is how every caller calls it.
- ObjectStream.BundleProducer.NextBundle: the range prover's answer is a parameter, and frame encoding does not fail.
- Reassembly.BundleReassembly.Take: frames arrive decoded, and bundle ids are the triple of seed, worker and chunk rather than its 16 bytes.
- Drive.DriveUntil: the engine is the sequence of its answers, and `done` is one of them.
- SessionPool.PoolSafety: session threads do not panic, and the session counter does not wrap.
- Receipts.PublishThroughCrashes: process crashes only; lost directory entries after a power failure, and I/O errors other than a missing or existing file, are not modelled.
- Receipts.ValidateFiles: decoding, the key, the shape and the subject of a receipt are one function from its bytes to a verdict.
- Receipts.Recover: the four paths of the protocol are distinct.
- Capabilities.FromCanonicalBytes: UTF-8 validity and control characters are predicates on the bytes.
- Signing, verification and authorization policy around capabilities: straight-line branches over opaque signatures.
- Striped fetches, QUIC carriers, sessions and schedulers: they rest on code outside the cores.
- The benchmark driver's argument parsing, environment variables, timing samples and JSON reports: nothing here says what they accept or print.
