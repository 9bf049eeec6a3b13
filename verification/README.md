# Velocity: a verified model of its algorithmic cores

Velocity is an agent-facing browser, an IDE with a quantised inference engine, and a drone that runs
scheduled tasks. This Dafny project models the parts of it that are algorithms rather than plumbing and
proves what they are for:

- **Quantised matrix-vector kernels.** Weights and activations in {-2,-1,+1,+2} packed as two bit planes.
  The popcount kernel is the exact dot product, agrees with the INT8 kernel, and the whole pipeline has an
  error bound (`Bits`, `Matrix`, `QuadKernel`, `Quantizer`, `QuadPipeline`). FP4, FP2 and ternary rows are
  the naive sums over uninterpreted arithmetic, so the results hold for rounded floats
  (`BlockKernels`, `TernaryKernel`).
- **Portable NDA1 documents.** The encoder and decoder, the Merkle root, and the revision chain stored as
  ordinary triples (`Merkle`, `MerkleTree`, `PortableCodec`, `PortableLayout`, `PortableIO`, `RevisionChain`,
  `RevisionHistory`, `ContentBinding`, `ContentRuns`, `HiddenEdits`, `PortableDoc`).
- **Fact documents.** The string interner, merging, the binary stream in both directions, and what the root
  binds (`NdaModel`, `NdaStream`, `NdaDocument`, `NdaIntegrity`).
- **Document diff.** Lossless, minimal and reversible, and computed by the source's loops (`Diff`, `DiffLoop`).
- **Scheduler.** Counters, priorities and progress over every run (`Scheduler`, `DroneScheduler`).
- **Site vector memory.** An index that agrees with a scan across eviction, and export and import through a
  fact document (`VectorStore`, `MemoryTransfer`, `MemoryRestore`, `MemoryReimport`,
  `SiteVectorStore`).
- **File transfer and base64.** `FileTransfer` and `Base64`.

`Arith`, `Slices`, `Bytes` and `Decimal` hold shared definitions.

Each component has a specification in functions, with its laws as lemmas, and, where the program mutates
state or loops, a class or method with the same loops that is proved equal to that specification.
Strings are byte sequences with a UTF-8 validity predicate. SHA-256 is an arbitrary function to 32-byte
digests that is never taken to be injective: a binding result says "equal, or this very pair of inputs
collides", with the pair computed from the two documents. Machine widths are explicit where the program
relies on them: i32 wrap-around in the kernels, u16 and u32 fields and casts in the codecs, the u32
accumulator of base64.

`dafny verify dfyconfig.toml` checks the whole project.

## Where the code and its comments differ

The model follows the code.

- The v2 and ternary kernels step by whole bytes per row, `validate` and `quad_distribution` by a flat bit
  index. `QuadKernel.LayoutsAgreeIff` says exactly when they agree, `QuadKernel.ValidatedFitsIff` exactly when
  a validated matrix stays in bounds; `ValidatedOutOfBounds` and `ValidatedMisread` are validated matrices that
  do not.
- The v2 activation padding decodes to -2, not to zero. `QuadPipeline.ExactIffPaddingCancels` says exactly
  when the result is unaffected.
- The comment that justifies the unchecked load of the ternary kernel bounds it by the stride, not by the
  input. The loads are inside the input exactly when the padding bits of the row are zero
  (`TernaryKernel.LoadsInBoundsIff`); `TernaryKernel.ValidatedLoadsPastEnd` is a validated matrix that fails.
- "Any change to any fact changes the root" is true of the readable facts only, up to a collision, and only for
  facts whose leaf has one reading. A fact that does not resolve has no part in the root
  (`NdaIntegrity.DanglingFactUnseen`), and a leaf can read as two facts (`NdaIntegrity.BarsForgeRoot`);
  `NdaIntegrity.LeafDeterminesFactIff` and `RootBindsFactsIff` say exactly which facts are bound. For different
  numbers of facts a leaf may also spell an inner node (`Merkle.CountMatters`, `MerkleTree.EqualRootsExplained`),
  which no leaf of another length than 64 bytes does. In portable documents a leaf is unambiguous exactly when
  no string holds a bar (`Merkle.LeafUnambiguousIff`), and the root does not cover commands
  (`PortableCodec.CommandsUnbound`).
- The content hash does not separate triples from commands (`ContentBinding.TriplesCanSpellCommands`), so after
  a `set_title` the delta can report no change although there is one (`HiddenEdits.TitleHidesEdits`). While no
  subject names a revision not yet made, its report is exact if no title is set
  (`ContentRuns.UntitledUnchangedIff`) and, in general, together with the count of content triples
  (`ContentRuns.CountedUnchangedIff`). A push that does name one, though it carries no content, turns the report
  to "changed" unless it forges that revision's hash (`ContentRuns.PushUnchangedIff`).
- Pushing a triple whose subject names a revision not yet made breaks the chain unless it happens to be the
  right parent link (`RevisionHistory.PushKeepsVerifyingIff`).
- A merge into a document with dangling ids can bring a hidden fact to light
  (`NdaModel.DanglingFactResurfaces`, `NdaModel.MergeExactIff`).
- The export of the vector store is said to be lossless. Once the store is full every new node gets the suffix
  2048, so two later pages of one session share an id and an import merges them
  (`MemoryRestore.EvictionLosesAPage`); `MemoryRestore.FilledStoreRestoredIff` says exactly when all pages, and
  when all ids, come back. After an eviction, ids are numbered anew.
- Repeated imports are said to be idempotent. A page skipped as known can be evicted by the pages inserted after
  it, and then the next import restores it again (`MemoryReimport.ReimportRestoresAgain`);
  `MemoryReimport.ReimportIff` says exactly when the second import is idle.
- The vector store is said to evict least recently used nodes; it evicts the oldest inserted ones.

## Model

| member | source | states |
|---|---|---|
| `Matrix.ValidateIff` | velocity-ide/src/nda.rs:233-290 | `validate` reports nothing exactly for a non-empty shape with a finite scale, a version of 1 to 4, and planes, codes and scales of exactly the packed lengths |
| `Matrix.ValidateReports` | velocity-ide/src/nda.rs:233-290 | exactly which errors are in the report of any matrix, the size errors of its version among them |
| `Matrix.BitmapReports` | velocity-ide/src/nda.rs:233-290 | the sign and extra size errors, with the expected and the actual length |
| `Matrix.BlockReports` | velocity-ide/src/nda.rs:233-290 | the block size, code size and scale size errors, with the expected and the actual length |
| `QuadKernel.AlignedLayout` | velocity-ide/src/nda.rs:317-340 | when cols is a multiple of 8 the flat packing of `validate` and the row-strided addressing of the kernels coincide, so a validated v2 matrix is readable by them |
| `QuadKernel.ValidatedFitsIff` | velocity-ide/src/nda.rs:626-683 | a validated bitmap matrix keeps the kernels in bounds if and only if cols is a multiple of 8 or rows <= ceil(rows * (cols mod 8) / 8) |
| `QuadKernel.LayoutsAgreeIff` | velocity-ide/src/nda.rs:317-340 | every row starts where the flat packing puts it if and only if cols is a multiple of 8 or there is at most one row |
| `QuadKernel.ValidatedOutOfBounds` | velocity-ide/src/nda.rs:233-290 | 8 rows of 1 column validate, and the kernels would index past their planes |
| `QuadKernel.ValidatedMisread` | velocity-ide/src/nda.rs:317-340 | 2 rows of 7 columns validate and stay in bounds, yet a weight packed as +2 is read as -2 |
| `QuadKernel.LaneIsProduct` | velocity-ide/src/nda.rs:3-23 | the XNOR lane weights of one bit position are the product of the two decoded values |
| `QuadKernel.ByteStep` | velocity-ide/src/nda.rs:626-683 | positive minus negative popcounts of one byte pair are the sum of eight decoded products |
| `QuadKernel.DotByByte` | velocity-ide/src/nda.rs:626-683 | one byte step of the popcount loop advances the naive dot product by exactly eight elements, for any row base |
| `QuadKernel.PopcountRow` | velocity-ide/src/nda.rs:626-683 | the popcount loop returns the naive dot product of decoded weights and activations over the whole stride; no i32 operation wraps below 2^29 elements |
| `QuadKernel.I8Row` | velocity-ide/src/nda.rs:858-899 | the INT8 loop returns the naive dot product over the real columns, in i32 without wrapping when 2 * bound * cols < 2^31 |
| `QuadKernel.DotBound` | velocity-ide/src/nda.rs:626-683 | every partial dot product stays within 2 * bound * n, whatever the planes hold |
| `Bits.BitIsDigit` | velocity-ide/src/nda.rs:3-23 | bit k of a byte is the binary digit of weight 2^k of its integer value |
| `QuadKernel.DotIsProducts` | velocity-ide/src/nda.rs:3-23 | whatever weights in {-2,-1,1,2} the planes spell (sign bit for positive, extra bit for 2 and -1, as binary digits), the dot product is the sum of weight times activation |
| `QuadKernel.PopcountRowOf` | velocity-ide/src/nda.rs:626-683 | the popcount kernel on planes that spell two lists returns the sum of their products |
| `QuadKernel.I8RowOf` | velocity-ide/src/nda.rs:858-899 | the INT8 kernel on a row that spells a list returns the sum of its products with the activations |
| `Quantizer.ComputeAMax` | velocity-ide/src/nda.rs:592-594 | the fold finds the largest magnitude of the activations |
| `Quantizer.AMaxAttained` | velocity-ide/src/nda.rs:592-594 | the maximum is the magnitude of some activation and bounds all of them |
| `Quantizer.QuadScaleIs` | velocity-ide/src/nda.rs:592-600 | the activation scale is half the largest magnitude, or 1 below the threshold of one hundred-millionth |
| `Quantizer.QuadCodeIs` | velocity-ide/src/nda.rs:601-622 | the code outright: sign of the activation with zero positive, magnitude 2 from one and a half scales on |
| `Quantizer.LargestQuadExact` | velocity-ide/src/nda.rs:592-622 | an activation of largest magnitude is coded 2 or -2 without error |
| `Quantizer.QuadCodeIsNearest` | velocity-ide/src/nda.rs:592-622 | the 1.5 threshold always selects a nearest level of {-2,-1,+1,+2}, with error at most act_scale |
| `Quantizer.QuantizeQuad` | velocity-ide/src/nda.rs:592-622 | the in-place bit packing stores, for every index, a nearest code of that activation; every padding position decodes to -2 |
| `Quantizer.SetBitIf` | velocity-ide/src/nda.rs:592-622 | setting a bit in place changes that plane position and no other |
| `QuadPipeline.BothKernels` | velocity-ide/src/nda.rs:858-899 | for aligned columns the popcount kernel and the INT8 kernel produce the same accumulator on the same activations, and it is the naive dot product |
| `QuadPipeline.ExactIffPaddingCancels` | velocity-ide/src/nda.rs:626-683 | the stride-wide accumulator is the exact dot product if and only if the row's padding weights sum to zero: always for aligned columns, never when cols mod 8 is 7 |
| `QuadPipeline.RowError` | velocity-ide/src/nda.rs:592-683 | per-element activation error e becomes at most 2 * n * e in a row, for every weight row and every input |
| `QuadPipeline.GemvQuad` | velocity-ide/src/nda.rs:490-501 | the whole v2 pipeline: each output is the rescaled dot product minus twice the padding weights, and within abs(scale) * 2 * cols * act_scale of the true row product when the padding cancels, act_scale being half the largest magnitude |
| `QuadPipeline.I8HalfStep` | velocity-ide/src/nda.rs:839-852 | INT8 quantisation is within half a step of every activation |
| `QuadPipeline.I8ScaleIs` | velocity-ide/src/nda.rs:839-845 | the INT8 scale is the largest magnitude over 127, or 1 below the threshold |
| `QuadPipeline.I8CodesAre` | velocity-ide/src/nda.rs:839-852 | the INT8 codes outright: zero below the threshold, else the activation over the scale rounded; the clamp never acts |
| `QuadPipeline.LargestI8Exact` | velocity-ide/src/nda.rs:839-852 | an activation of largest magnitude is coded 127 or -127 without error |
| `Arith.RoundIs` | velocity-ide/src/nda.rs:846-850 | the exact range of reals that rounds to each integer, halves away from zero |
| `QuadPipeline.GemvI8` | velocity-ide/src/nda.rs:858-899 | each INT8 output is the rescaled dot product with the codes, and within abs(scale) * cols * act_scale of the true row product, act_scale being the largest magnitude over 127, for any number of columns below 2^23 |
| `BlockKernels.ValidatedBlockShapeIff` | velocity-ide/src/nda.rs:233-290 | a validated FP4 or FP2 matrix has the kernels' bounds with every column in a block if and only if blocks hold whole bytes, tile the rows and have their scales (which `validate` checks only when n_blocks > 0) |
| `BlockKernels.ValidatedBadBlocks` | velocity-ide/src/nda.rs:504-543 | three validated FP4 matrices that fail it: blocks of one code, over which the inner loop does nothing; a column in no block; and more blocks than scales |
| `BlockKernels.KernelStep` | velocity-ide/src/nda.rs:504-589 | the byte, the field, the scale and the input that one inner step uses are those of that very column, in bounds |
| `BlockKernels.Fp4Row` | velocity-ide/src/nda.rs:504-543 | the nested FP4 loops compute the left-to-right sum of a loop decoding one element at a time, for uninterpreted arithmetic |
| `BlockKernels.Fp2Row` | velocity-ide/src/nda.rs:546-589 | the same for the four-codes-per-byte FP2 loops |
| `BlockKernels.Fp4Sum` | velocity-ide/src/nda.rs:504-543 | said of the codes the bytes spell as integers, low nibble first: the FP4 sum is that of input times grid value (the sixteen literals) times block scale times matrix scale |
| `BlockKernels.Fp2Sum` | velocity-ide/src/nda.rs:546-589 | the same for base-4 digits, lowest first, on the four-value grid |
| `BlockKernels.CodeSumAdds` | velocity-ide/src/nda.rs:504-589 | that sum adds, from the left, one product per column with code row * cols + j and scale row * blocks + j / block_size |
| `TernaryKernel.RemainingNext` | velocity-ide/src/nda.rs:688-734 | clearing the lowest set bit visits exactly the active positions of a byte, in ascending order |
| `TernaryKernel.TernaryRow` | velocity-ide/src/nda.rs:688-734 | for every row, padding bits included, the set-bit loop loads exactly the active positions of the row, each once and ascending, and adds or subtracts what it loads in that order; with zero padding bits the result is the naive sum over the columns, scaled once |
| `TernaryKernel.TernarySumIsSigned` | velocity-ide/src/nda.rs:702-727 | whatever weights -1, 0, 1 the sign and extra planes spell as binary digits, the row sum adds, subtracts or skips by them, and the loads are the non-zero ones |
| `TernaryKernel.TernaryRowOf` | velocity-ide/src/nda.rs:688-734 | the ternary kernel on a row that spells a list of weights returns the signed sum of the inputs, scaled once |
| `TernaryKernel.LoadsInBoundsIff` | velocity-ide/src/nda.rs:714-720 | every unchecked load of a row is inside the input if and only if the padding bits of the row are zero |
| `TernaryKernel.AlignedLoadsInBounds` | velocity-ide/src/nda.rs:714-720 | rows of a multiple of 8 columns load only inside the input, whatever the planes hold |
| `TernaryKernel.ValidatedLoadsPastEnd` | velocity-ide/src/nda.rs:233-290 | a 1 by 1 matrix that validates and whose row loads position 1 of a one-element input |
| `Merkle.NextLevel` | velocity-browser/src/nda_portable.rs:527-553 | one pass hashes neighbours pairwise and promotes an odd last node unchanged |
| `Merkle.LeafIs` | velocity-browser/src/nda_portable.rs:527-535 | a leaf is subject, predicate and object with a bar between |
| `Merkle.SmallRoots` | velocity-browser/src/nda_portable.rs:527-553 | the roots of 0, 1, 3 and 5 triples written out |
| `Merkle.MerkleRoot` | velocity-browser/src/nda_portable.rs:527-553 | the level loop terminates with the root of the pairwise tree; no leaves give the zero root |
| `Merkle.LevelCollision` | velocity-browser/src/nda_portable.rs:527-553 | from two different leaf levels of one size with the same root, a pair of distinct hash inputs with equal digests is computed |
| `Merkle.LeafCollision` | velocity-browser/src/nda_portable.rs:527-553 | the same from two different lists of leaf strings |
| `Merkle.CountMatters` | velocity-browser/src/nda_portable.rs:527-553 | a document of one triple whose leaf spells out two digests has the root of the two-triple document with those leaves, under every hash |
| `MerkleTree.TopFacts` | velocity-browser/src/nda_portable.rs:527-553 | the level loop builds a binary tree with the leaves in order on its fringe and the root on top |
| `MerkleTree.TreeCollision` | velocity-browser/src/nda_portable.rs:527-553 | two different trees of any shapes under one digest, without a 64-byte leaf, give a computed colliding pair |
| `MerkleTree.RootBindsAnyCount` | velocity-browser/src/nda_portable.rs:527-553 | equal roots over separable triples without a 64-byte leaf, in any numbers: equal triples, or the explicit collision in the two trees, or against the empty document a preimage of the zero root |
| `MerkleTree.TreeEvidence` | velocity-browser/src/nda_portable.rs:527-553 | any two different trees under one digest yield, computed, a collision or a leaf of one that spells an inner node of the other |
| `MerkleTree.EqualRootsExplained` | velocity-browser/src/nda_portable.rs:527-553 | equal roots of any two lists of triples, whatever their strings and counts: equal leaves, or that evidence, or against the empty list a preimage of the zero root |
| `Merkle.LeafUnambiguousIff` | velocity-browser/src/nda_portable.rs:527-553 | a leaf string determines its triple among all triples, and among all triples of valid UTF-8 strings, if and only if no part contains the separator |
| `Merkle.TwinValid` | velocity-browser/src/nda_portable.rs:527-553 | the other reading of an ambiguous triple of valid UTF-8 strings consists of valid UTF-8 strings |
| `Merkle.RootBindsTriples` | velocity-browser/src/nda_portable.rs:527-553 | equal roots over equally many separable triples: equal triples, or the explicit collision in their trees |
| `PortableCodec.AddAllOk` | velocity-browser/src/nda_portable.rs:573-652 | interning keeps every pool offset below 2^32 and pointing at its own length-prefixed entry |
| `PortableCodec.NoOffsetWraps` | velocity-browser/src/nda_portable.rs:573-652 | for every document the header bounds admit, no unchecked u32 cast of a pool offset wraps and every string is pooled |
| `PortableCodec.AcceptedIffFits` | velocity-browser/src/nda_portable.rs:560-652 | `try_to_portable_bytes` accepts exactly the documents within the three u16 bounds |
| `PortableCodec.RoundTrip` | velocity-browser/src/nda_portable.rs:656-774 | whatever the validating encoder accepts decodes to exactly that document |
| `PortableCodec.DecodedIsBounded` | velocity-browser/src/nda_portable.rs:656-774 | every document accepted from arbitrary bytes has valid UTF-8 strings within u16 lengths and at most 65535 commands |
| `PortableLayout.DecodeIff` | velocity-browser/src/nda_portable.rs:656-774 | the decoder returns a document if and only if the buffer spells it, byte by byte: magic, flags, root, counts, pool offset, 12-byte triples, 18-byte commands and length-prefixed UTF-8 strings |
| `PortableLayout.HeaderErrors` | velocity-browser/src/nda_portable.rs:656-677 | which error a short buffer, a wrong magic, a non-zero flag or a pool offset past the end reports, and only these |
| `PortableLayout.StringErrors` | velocity-browser/src/nda_portable.rs:680-696 | which error an unreadable string reports, and only these |
| `PortableLayout.BlockErrors` | velocity-browser/src/nda_portable.rs:698-720 | a truncated triples block is reported exactly when the first unreadable triple runs past the buffer |
| `PortableLayout.CommandErrors` | velocity-browser/src/nda_portable.rs:722-768 | a truncated commands block is reported exactly when the first unreadable command runs past the buffer |
| `PortableLayout.MismatchReported` | velocity-browser/src/nda_portable.rs:769-774 | a buffer that spells a document but for its root reports the mismatch |
| `PortableLayout.EncodingSpells` | velocity-browser/src/nda_portable.rs:573-652 | what the checked encoder writes spells the document, with the pool right behind the blocks |
| `PortableLayout.EncodeErrors` | velocity-browser/src/nda_portable.rs:573-622 | which error the checked encoder reports, in which order and with which number |
| `PortableLayout.PoolHoldsEachOnce` | velocity-browser/src/nda_portable.rs:577-596 | the pool is the empty string followed by every other string of the document exactly once |
| `PortableCodec.UncheckedRoundTrip` | velocity-browser/src/nda_portable.rs:555-562 | `to_portable_bytes` always yields bytes; a document within the bounds comes back from them, one with an over-long string or too many commands comes back from no bytes at all |
| `PortableCodec.CommandsUnbound` | velocity-browser/src/nda_portable.rs:656-774 | the header root does not cover commands: the same triples with any two fitting lists of commands are accepted under one root |
| `PortableCodec.AcceptedIffRepresentable` | velocity-browser/src/nda_portable.rs:573-774 | below the pool-start bound, the encoder accepts a document if and only if some bytes decode to it |
| `PortableIO.StringPool.AddString` | velocity-browser/src/nda_portable.rs:573-652 | one intern call: the same offset for a known string, a new entry otherwise, an error exactly for an over-long string when validating |
| `PortableIO.InternAll` | velocity-browser/src/nda_portable.rs:573-652 | the two interning loops pool all strings in document order and record each one's offset, or report the first over-long string |
| `PortableIO.EncodePortable` | velocity-browser/src/nda_portable.rs:573-652 | the mutating encoder produces the specified layout or the specified error |
| `PortableIO.DecodePortable` | velocity-browser/src/nda_portable.rs:656-774 | the offset-advancing decoder accepts, rejects and reads exactly as specified |
| `PortableIO.Transport` | velocity-browser/src/nda_portable.rs:560-571 | encoding then decoding returns the document exactly when it fits, an error otherwise, and never a different document |
| `PortableIO.AcceptedBindsTriples` | velocity-browser/src/nda_portable.rs:656-774 | two accepted files with the same root and triple count in their headers hold the same separable triples, or their trees yield a collision |
| `RevisionChain.RevSubjectIndex` | velocity-browser/src/nda_portable.rs:343-348 | the subject written for revision n is read back as index n |
| `RevisionChain.OtherSubjectsParse` | velocity-browser/src/nda_portable.rs:343-348 | a different subject, with a plus sign, is read as the same index |
| `RevisionChain.HexInjective` | velocity-browser/src/nda_portable.rs:778-785 | hex text determines its bytes |
| `RevisionChain.HexIs` | velocity-browser/src/nda_portable.rs:778-785 | two digits per byte, high nibble first |
| `RevisionChain.HexDigitIs` | velocity-browser/src/nda_portable.rs:778-785 | the digits are 0-9 and a-f |
| `RevisionChain.NamesSpelled` | velocity-browser/src/nda_portable.rs:180-207 | the predicate names, the document subject, the revision prefix and the genesis marker, letter by letter |
| `RevisionChain.ProvenanceIs` | velocity-browser/src/nda_portable.rs:211-224 | the predicates excluded from the content hash, and no others |
| `RevisionChain.CommitWrites` | velocity-browser/src/nda_portable.rs:354-413 | the triples a commit appends, in order, from the first to the last |
| `RevisionChain.WithoutTitleIs` | velocity-browser/src/nda_portable.rs:297-299 | dropping titles removes exactly the triples with the title predicate and keeps the order of the rest |
| `RevisionChain.SetTitleWrites` | velocity-browser/src/nda_portable.rs:297-308 | the title triple stands first, under the document subject; commands stay |
| `RevisionChain.TripleExample` | velocity-browser/src/nda_portable.rs:320-341 | the content bytes of a triple |
| `RevisionChain.CommandExample` | velocity-browser/src/nda_portable.rs:320-341 | the content bytes of a command |
| `RevisionChain.ContentIs` | velocity-browser/src/nda_portable.rs:320-341 | content bytes grow triple by triple and command by command, in order |
| `Decimal.ParseIff` | velocity-browser/src/nda_portable.rs:343-348 | an index is read from exactly an optional plus sign, leading zeros and a decimal below 2^64 |
| `Decimal.DecIs` | velocity-browser/src/nda_portable.rs:371-372 | decimals, most significant digit first |
| `Decimal.DecLeads` | velocity-browser/src/nda_portable.rs:371-372 | only zero starts with the digit 0 |
| `RevisionHistory.HoldsRevisions` | velocity-browser/src/nda_portable.rs:416-448 | from a recorded chain `revisions` reads back exactly the revisions recorded, in index order |
| `RevisionHistory.VerifyIff` | velocity-browser/src/nda_portable.rs:453-467 | `verify_history` succeeds if and only if every revision names the content hash of the one before it, or genesis |
| `RevisionHistory.VerifyReports` | velocity-browser/src/nda_portable.rs:453-467 | the error names the first revision that fails to link, its parent and the hash expected |
| `RevisionHistory.CommitKeepsContent` | velocity-browser/src/nda_portable.rs:354-413 | a commit changes neither the content bytes nor the content hash nor the commands, on any document |
| `RevisionHistory.CommitAppendsOne` | velocity-browser/src/nda_portable.rs:354-413 | a commit appends exactly one revision, chained to the last and carrying the current content hash, and alters none before it |
| `RevisionHistory.CommitLeavesNothing` | velocity-browser/src/nda_portable.rs:501-523 | right after a commit `uncommitted_delta` reports a commit, no change and the content counts |
| `RevisionHistory.FirstCommitRecordsOrigin` | velocity-browser/src/nda_portable.rs:354-413 | only the first commit adds origin and creation triples; all earlier triples stay a prefix |
| `RevisionHistory.StepKeeps` | velocity-browser/src/nda_portable.rs:281-413 | each operation keeps the chain invariant and extends the history by one revision per commit and none otherwise |
| `RevisionHistory.EveryRunVerifies` | velocity-browser/src/nda_portable.rs:453-467 | after every run from the empty document whose pushes name no revision not yet made, the history verifies and holds one revision per commit |
| `RevisionHistory.PushKeepsVerifyingIff` | velocity-browser/src/nda_portable.rs:281-294 | pushing a triple onto a good history keeps it verifying if and only if its subject names no revision, names an existing one, or is a correctly chained parent triple |
| `RevisionHistory.SetTitleReplaces` | velocity-browser/src/nda_portable.rs:297-316 | after `set_title` the title is the new one, it is the only title, all other triples keep their order, and an earlier title leaves no trace |
| `ContentBinding.ContentBytesBindIff` | velocity-browser/src/nda_portable.rs:320-341 | for equal content bytes, content triples and commands are equal if and only if the counts of content triples are |
| `ContentBinding.ContentHashBinds` | velocity-browser/src/nda_portable.rs:320-341 | for equal content hashes the same equivalence holds, or the content bytes are a collision |
| `ContentBinding.UnchangedIff` | velocity-browser/src/nda_portable.rs:501-523 | `uncommitted_delta` reports no change if and only if the content bytes are those the latest revision recorded, or collide with them |
| `ContentBinding.UnchangedMeansUnchanged` | velocity-browser/src/nda_portable.rs:501-523 | under a report of no change the content is the committed one if and only if the count of content triples is, or there is a collision |
| `ContentRuns.CommitRecords` | velocity-browser/src/nda_portable.rs:354-413 | after a commit on any document with an index left, good history or not, the new index is the largest and its content hash is the one a lookup finds |
| `ContentRuns.RunUnchangedIff` | velocity-browser/src/nda_portable.rs:501-523 | after a commit and any edits since: if no subject names a later revision, the report is "unchanged" if and only if the content bytes are those committed, or collide with them; otherwise if and only if the hash found for the latest revision named is that of the content |
| `ContentRuns.HonestEditsClaimNothing` | velocity-browser/src/nda_portable.rs:343-348 | edits that push no subject naming a revision not yet made leave no later revision named |
| `ContentRuns.CountedUnchangedIff` | velocity-browser/src/nda_portable.rs:501-523 | after a commit and any edits since that leave no later revision named, an "unchanged" report with the triple count reported right after the commit means the committed content, and conversely, or a collision |
| `ContentRuns.UntitledUnchangedIff` | velocity-browser/src/nda_portable.rs:501-523 | after a commit and any pushes and drawings since: if no pushed subject names a later revision, the report is "unchanged" if and only if nothing was drawn and only provenance pushed, or there is a collision; otherwise if and only if the first content hash pushed for the latest revision named is that of the content |
| `ContentRuns.PushUnchangedIff` | velocity-browser/src/nda_portable.rs:501-523 | one push after a commit naming a revision not yet made leaves the report "unchanged" if and only if it is that revision's content-hash triple with the current hash |
| `HiddenEdits.TitleHidesEdits` | velocity-browser/src/nda_portable.rs:501-523 | a run with `set_title` after the commit, under every hash, on which a content triple is dropped and a command drawn while the report is "unchanged" |
| `ContentBinding.TriplesCanSpellCommands` | velocity-browser/src/nda_portable.rs:320-341 | 17 blank triples and 12 blank commands have the same content bytes, so the triple count is needed |
| `ContentBinding.UncommittedBeforeFirstCommit` | velocity-browser/src/nda_portable.rs:501-523 | before any commit the delta reports a change exactly when there is any content |
| `PortableDoc.NdaPortableDoc.CommitRevision` | velocity-browser/src/nda_portable.rs:354-413 | the in-place commit is the specified one and keeps the chain invariant, the earlier revisions and an unchanged delta |
| `PortableDoc.NdaPortableDoc.Retitle` | velocity-browser/src/nda_portable.rs:297-308 | the in-place retitle keeps the revision history |
| `PortableDoc.NdaPortableDoc.CheckHistory` | velocity-browser/src/nda_portable.rs:453-467 | the link-checking loop returns the first broken link, and none on a good history |
| `PortableDoc.NdaPortableDoc.SaveAndReload` | velocity-browser/src/nda_portable.rs:560-774 | saving and loading returns this document when it fits and an error otherwise |
| `NdaModel.InternResolves` | velocity-browser/src/nda.rs:79-92 | the id returned resolves to the interned string, at most one slot is added, and no resolvable id changes meaning |
| `NdaModel.InternInverts` | velocity-browser/src/nda.rs:79-88 | interning keeps the index the exact inverse of the string list |
| `NdaModel.ReadableGrowsIff` | velocity-browser/src/nda.rs:199-209 | growing the dictionary leaves what a fact list reads as unchanged if and only if no fact points into the new slots |
| `NdaModel.PushStrReads` | velocity-browser/src/nda.rs:139-147 | a pushed string fact is read back last, as pushed, and the facts before it stay |
| `NdaModel.PushIntReads` | velocity-browser/src/nda.rs:149-157 | a pushed integer fact is read back with the number in decimal |
| `Decimal.DecIntIs` | velocity-browser/src/nda.rs:188-194 | negative numbers carry a minus sign, others do not |
| `Decimal.DecIntInjective` | velocity-browser/src/nda.rs:188-194 | different integers display differently |
| `NdaModel.MergeReads` | velocity-browser/src/nda.rs:162-181 | the facts a merge appends read exactly as the source document's readable facts, in order |
| `NdaModel.MergeFillsNewStrings` | velocity-browser/src/nda.rs:162-181 | a merge adds exactly one dictionary slot per string of the source's resolvable subjects and kept objects that the target's index lacks |
| `NdaModel.MergeExactIff` | velocity-browser/src/nda.rs:162-181 | readable facts after a merge are the target's followed by the source's if and only if no target fact points into that many slots past the end of the target's dictionary, a condition on the two documents before the merge |
| `NdaModel.MergeLossless` | velocity-browser/src/nda.rs:162-209 | so they are for every target without dangling ids and every source |
| `NdaModel.DanglingFactResurfaces` | velocity-browser/src/nda.rs:162-209 | a concrete target with a dangling id gains a fact by merging |
| `NdaStream.DecodeEncoded` | velocity-browser/src/nda.rs:258-333 | decoding an encoded document followed by any bytes reads that document and consumes exactly its encoding |
| `NdaStream.RebuildsIndex` | velocity-browser/src/nda.rs:258-333 | the index rebuilt by the decoder is the original one when that inverts the string list |
| `NdaStream.StreamRoundTrip` | velocity-browser/src/nda.rs:231-333 | decode after encode is the identity on documents whose index inverts the strings |
| `NdaStream.EncodeDecoded` | velocity-browser/src/nda.rs:231-333 | for any accepted bytes, encoding the result gives exactly the prefix that was consumed |
| `NdaStream.StrictPrefixRejected` | velocity-browser/src/nda.rs:258-333 | every strict prefix of an encoding is rejected |
| `NdaStream.StreamExample` | velocity-browser/src/nda.rs:231-255 | the bytes of a document with a string, a string fact and a negative integer fact |
| `NdaStream.StringErrors` | velocity-browser/src/nda.rs:258-333 | which error an unreadable string reports |
| `NdaStream.FactErrors` | velocity-browser/src/nda.rs:258-333 | which error an unreadable fact reports, by where it ends or its tag |
| `Bytes.I64BitsIs` | velocity-browser/src/nda.rs:231-255 | integers are written as two's complement modulo 2^64 |
| `Bytes.EncodedIsValid` | velocity-browser/src/nda.rs:258-333 | every sequence of Unicode scalar values encodes to a string the decoders accept |
| `Bytes.ValidIsEncoded` | velocity-browser/src/nda.rs:258-333 | every string the decoders accept is the encoding of Unicode scalar values |
| `NdaDocument.NdaDictionary.InternString` | velocity-browser/src/nda.rs:79-88 | the in-place intern is the specified one and keeps every earlier string where it was |
| `NdaDocument.NdaDocument.MergeFrom` | velocity-browser/src/nda.rs:162-181 | the merge loop is the specified merge and, without dangling ids, concatenates the readable facts |
| `NdaDocument.NdaDocument.Readables` | velocity-browser/src/nda.rs:199-209 | the loop yields the displayable facts in order |
| `NdaDocument.NdaDocument.ToBinaryStream` | velocity-browser/src/nda.rs:231-255 | the buffer loop writes the specified stream |
| `NdaDocument.FromBinaryStream` | velocity-browser/src/nda.rs:258-333 | the position-advancing loops accept, reject and read exactly as the specified decoder, with the index built on the way |
| `NdaIntegrity.ComputeRoot` | velocity-browser/src/nda.rs:341-368 | the root is the pairwise tree over the readable facts' leaf strings |
| `NdaIntegrity.RootBindsFacts` | velocity-browser/src/nda.rs:335-368 | equal roots, equally many readable facts and separator-free subjects on both sides: the same readable facts, or the explicit collision in the two trees |
| `NdaIntegrity.RootBindsAnyFacts` | velocity-browser/src/nda.rs:335-368 | the same for any two counts of readable facts when no leaf is exactly 64 bytes long |
| `NdaIntegrity.LeafDeterminesFactIff` | velocity-browser/src/nda.rs:341-351 | a leaf determines its fact among all facts, and among those of valid UTF-8 strings, if and only if no other pair of separators in it encloses a canonical decimal below 65536 |
| `NdaIntegrity.RootBindsDocument` | velocity-browser/src/nda.rs:335-368 | a document all of whose readable facts pass that test is bound by its root against every other with equally many: the same readable facts, or the explicit collision |
| `NdaIntegrity.RootBindsFactsIff` | velocity-browser/src/nda.rs:335-368 | under every hash that test on the facts is exact: without it some other facts have the same root and no collision |
| `NdaIntegrity.RootBindsDocumentAnyCount` | velocity-browser/src/nda.rs:335-368 | the same binding for any counts and any leaves: the same readable facts, or a collision, a leaf that spells an inner node, or a preimage of the zero root |
| `NdaIntegrity.AmbiguousFactForged` | velocity-browser/src/nda.rs:335-368 | every document with a readable fact that fails the test has another document with different facts and the same root under every hash |
| `NdaIntegrity.BarsForgeRoot` | velocity-browser/src/nda.rs:335-368 | subject `a` bar `5`, predicate 7, object `x` and subject `a`, predicate 5, object `7` bar `x` are different facts with one root under every hash |
| `NdaIntegrity.DanglingFactUnseen` | velocity-browser/src/nda.rs:335-368 | two documents that differ in a fact that does not resolve have one root |
| `Diff.SurplusBag` | velocity-browser/src/agent_api.rs:72-90 | the order-preserving surplus of one list over another has exactly the multiset difference as its contents |
| `Diff.TakeIs` | velocity-browser/src/agent_api.rs:72-90 | of equal facts the first occurrences are taken, each in its place |
| `Diff.Lossless` | velocity-browser/src/agent_api.rs:59-136 | removing `removed` and every old value and adding `added` and every new value turns the before-multiset into the after-multiset |
| `Diff.ChangesDiffer` | velocity-browser/src/agent_api.rs:92-136 | no change has equal old and new values |
| `Diff.NoSharedKey` | velocity-browser/src/agent_api.rs:92-136 | no (subject, predicate) key is in both `added` and `removed` |
| `Diff.PairLeftovers` | velocity-browser/src/agent_api.rs:92-136 | what pairing leaves over on each side is, in order, each key's facts beyond the number the other side has |
| `Diff.LeftoverIs` | velocity-browser/src/agent_api.rs:92-136 | what is left over within a key are its last facts, in their places |
| `Diff.PartneredIs` | velocity-browser/src/agent_api.rs:92-136 | within a key the first removals find partners, as many as there are additions |
| `Diff.ChangesInOrder` | velocity-browser/src/agent_api.rs:92-136 | changes come in the order of the removals they explain |
| `Diff.DiffKeys` | velocity-browser/src/agent_api.rs:59-136 | the delta has, per key, exactly the larger of surplus and deficit many entries |
| `Diff.Minimal` | velocity-browser/src/agent_api.rs:51-136 | no delta that turns before into after is shorter; the length is the sum over keys of max(surplus, deficit) |
| `Diff.EmptyIffEqual` | velocity-browser/src/agent_api.rs:59-136 | the delta is empty if and only if the two fact multisets are equal |
| `Diff.PairZips` | velocity-browser/src/agent_api.rs:92-136 | within a key, the changes pair the first removed with the first added, the second with the second, and so on |
| `Diff.Reversible` | velocity-browser/src/agent_api.rs:59-136 | the diff in the other direction has `added` and `removed` exchanged as sequences and the same changes with old and new exchanged |
| `DiffLoop.Tally` | velocity-browser/src/agent_api.rs:63-70 | the signed count map holds, for every fact, its occurrences after minus before |
| `DiffLoop.Extract` | velocity-browser/src/agent_api.rs:72-90 | one pass over the facts takes exactly the surplus occurrences, first come first served, without touching the other side's counts |
| `DiffLoop.PairUp` | velocity-browser/src/agent_api.rs:92-136 | the loop with its key index and consumed flags yields the specified pairing |
| `DiffLoop.ComputeDiff` | velocity-browser/src/agent_api.rs:59-136 | the whole loop nest yields the specified delta, which transforms before into after and is no longer than any that does |
| `DiffLoop.DiffDocuments` | velocity-browser/src/agent_api.rs:59-136 | on documents the diff is that of the readable facts, with length 0 exactly for equal multisets |
| `Scheduler.Conservation` | drone/src/scheduler.rs:238-256 | every task is in exactly one of the five status counts |
| `Scheduler.CountIs` | drone/src/scheduler.rs:225-230 | a status count is the number of positions with that status |
| `Scheduler.SubmitInv` | drone/src/scheduler.rs:141-146 | a submission keeps counters, ids and the limit |
| `Scheduler.SubmitAppends` | drone/src/scheduler.rs:141-146 | a submission appends one pending task with its kind, payload and priority and id n + 1, and touches nothing else |
| `Scheduler.RunCarries` | drone/src/scheduler.rs:129-146 | in every run from a new scheduler task i has id i + 1 and the kind, payload and priority of the i-th submission, and the limit is the one asked for but at least 1 |
| `Scheduler.CompleteInv` | drone/src/scheduler.rs:188-203 | a completion keeps them, and its saturating subtraction never saturates |
| `Scheduler.CancelInv` | drone/src/scheduler.rs:207-222 | a cancellation keeps them, and its saturating subtraction never saturates |
| `Scheduler.CompleteMovesOne` | drone/src/scheduler.rs:188-203 | a completion moves exactly the running task with that id to the right terminal state and leaves every other task |
| `Scheduler.CancelMovesOne` | drone/src/scheduler.rs:207-222 | a cancellation moves exactly the non-terminal task with that id |
| `Scheduler.OrderFacts` | drone/src/scheduler.rs:153-182 | the stable sort yields every pending task once, by descending priority and then ascending position |
| `Scheduler.TickStarts` | drone/src/scheduler.rs:153-182 | a tick starts exactly min(free slots, pending) tasks, after which all slots are full or nothing is pending |
| `Scheduler.TickOrder` | drone/src/scheduler.rs:153-182 | the returned ids were pending, now run, and come by descending priority then ascending id |
| `Scheduler.TickLeavesLowest` | drone/src/scheduler.rs:153-182 | every started task outranks every task left pending |
| `Scheduler.TickPriorities` | drone/src/scheduler.rs:153-182 | a started task has a higher priority than any left pending, or the same and an earlier position |
| `Scheduler.TickFrame` | drone/src/scheduler.rs:153-182 | a task not in the returned list is unchanged |
| `Scheduler.RunKeeps` | drone/src/scheduler.rs:129-222 | over any sequence of operations the invariant holds, terminal tasks never change, ids and payloads never change and nothing returns to pending |
| `Scheduler.ReachableInv` | drone/src/scheduler.rs:129-222 | in every reachable state running, completed and failed equal their status counts, running is within the limit and ids are 1..n |
| `Scheduler.ProgressPossible` | drone/src/scheduler.rs:153-203 | while any task is not terminal, a tick leaves some task running that can be completed |
| `Scheduler.Drains` | drone/src/scheduler.rs:153-203 | one tick and one completion per non-terminal task, in any valid choice of completions, leaves no non-terminal task |
| `Scheduler.DrainingRunExists` | drone/src/scheduler.rs:153-203 | for every reachable state and every wished sequence of outcomes such a draining run exists |
| `DroneScheduler.DroneScheduler.TickTasks` | drone/src/scheduler.rs:153-182 | the in-place tick is the specified one and keeps the invariant |
| `DroneScheduler.DroneScheduler.SubmitTask` | drone/src/scheduler.rs:141-146 | the in-place submission appends a pending task with the arguments and the returned id |
| `DroneScheduler.DroneScheduler.CompleteTask` | drone/src/scheduler.rs:188-203 | the in-place completion is the specified one and keeps the invariant |
| `DroneScheduler.DroneScheduler.CancelTask` | drone/src/scheduler.rs:207-222 | the in-place cancellation is the specified one and returns true exactly when something changed |
| `DroneScheduler.DroneScheduler.SchedulerStats` | drone/src/scheduler.rs:238-256 | each reported count is its status count, they add up with the cancelled ones to the total, and the success rate is completed over finished, or 1 before the first finished task |
| `VectorStore.LookupIsScan` | velocity-browser/src/vector_memory.rs:44-109 | looking a hash up in the index gives what a linear scan from the back gives |
| `VectorStore.ScanFindsLast` | velocity-browser/src/vector_memory.rs:44-109 | that scan finds the last node with the hash, or there is none |
| `VectorStore.NodeIdIs` | velocity-browser/src/vector_memory.rs:74-80 | a node id is the session, a colon and the number of nodes held in decimal |
| `VectorStore.InsertConsistent` | velocity-browser/src/vector_memory.rs:74-109 | an insert keeps the index exact, also across eviction, and keeps the last 2048 nodes |
| `VectorStore.StoreHoldsLast` | velocity-browser/src/vector_memory.rs:44-109 | after any inserts the store holds exactly the last min(n, 2048) nodes in order and every lookup agrees with the scan |
| `MemoryTransfer.PushAllViews` | velocity-browser/src/vector_memory.rs:254-275 | the facts pushed by an export read back, in order, as the pushes made |
| `MemoryTransfer.ExportSays` | velocity-browser/src/vector_memory.rs:254-275 | the facts of an exported page with their predicate numbers, in order |
| `MemoryTransfer.OutcomeIs` | velocity-browser/src/vector_memory.rs:267-271 | the outcome is stored in ten-thousandths, rounded and held at the ends of the i64 range |
| `MemoryTransfer.IncompleteRestoresNothing` | velocity-browser/src/vector_memory.rs:322-332 | a document without session, url, text or hash facts restores nothing |
| `MemoryTransfer.GroupNode` | velocity-browser/src/vector_memory.rs:278-341 | the facts of one exported node open a new group for a new id, or for a known id replace its fields and append its tags |
| `MemoryTransfer.GroupAll` | velocity-browser/src/vector_memory.rs:278-341 | grouping the facts of any export by subject is gathering its nodes by id, repeated ids included |
| `MemoryTransfer.ImportGathers` | velocity-browser/src/vector_memory.rs:254-341 | importing any export into any store restores the nodes gathered by id |
| `MemoryTransfer.EveryRunInserts` | velocity-browser/src/vector_memory.rs:278-341 | every run of inserts and imports, of any documents, reaches a store that inserts alone reach |
| `MemoryRestore.GroupCount` | velocity-browser/src/vector_memory.rs:278-341 | an export has one complete group per distinct id |
| `MemoryRestore.RestoredCount` | velocity-browser/src/vector_memory.rs:278-341 | an import of any export into an empty store restores one page per distinct hash of those groups |
| `MemoryRestore.ExportImport` | velocity-browser/src/vector_memory.rs:254-341 | with ids and hashes distinct, every page comes back in order with its session, url, text, hash and tags, under the id of its position, and with an exact index |
| `MemoryRestore.RestoresAllIff` | velocity-browser/src/vector_memory.rs:278-341 | for every store (none holds more than 2048 nodes), all pages come back from export and import if and only if no two share an id and no two share a hash |
| `MemoryRestore.SameNodesIff` | velocity-browser/src/vector_memory.rs:254-341 | the nodes come back as they were, ids included and up to the outcome's precision, if and only if every id is that of its position and the hashes are distinct |
| `MemoryRestore.FilledIdsDistinctIff` | velocity-browser/src/vector_memory.rs:44-109 | after any inserts the held ids are distinct if and only if no two held pages inserted since the store was full share a session |
| `MemoryRestore.FilledStoreRestoredIff` | velocity-browser/src/vector_memory.rs:254-341 | after any inserts, all pages come back if and only if the hashes are distinct and no two held pages inserted since the store was full share a session; with their ids if and only if the hashes are distinct and nothing was evicted |
| `MemoryRestore.EvictionLosesAPage` | velocity-browser/src/vector_memory.rs:254-341 | 2050 inserts of one session with distinct hashes leave a store whose export and import restores fewer than its 2048 pages |
| `MemoryRestore.FilledPositional` | velocity-browser/src/vector_memory.rs:44-109 | after at most 2048 inserts every id is that of its position |
| `MemoryRestore.OutcomePrecision` | velocity-browser/src/vector_memory.rs:254-341 | the outcome comes back within 1/20000 |
| `MemoryRestore.MemorySurvives` | velocity-browser/src/vector_memory.rs:254-341 | through the binary stream: every page comes back, in order, if and only if ids and hashes are distinct, and importing the same bytes once more restores 0 pages and changes nothing |
| `MemoryRestore.ImportAgain` | velocity-browser/src/vector_memory.rs:278-341 | importing any export into any store that knows its hashes restores nothing, repeated ids and hashes included |
| `MemoryRestore.SecondImportRestoresNothing` | velocity-browser/src/vector_memory.rs:278-341 | importing an export twice into an empty store is importing it once |
| `MemoryReimport.ImportTrace` | velocity-browser/src/vector_memory.rs:278-341 | what an import of any export does to the hashes of any store: the new ones, in order, come after those held, and all but the last 2048 go |
| `MemoryReimport.ReimportIff` | velocity-browser/src/vector_memory.rs:274-341 | for any store, importing an export twice is importing it once if and only if every page of it is among the last 2048 of those held followed by those inserted, told from the store and the export |
| `MemoryReimport.ReimportRestoresNothing` | velocity-browser/src/vector_memory.rs:274-341 | it is so, whatever the order of the pages, when every page already held lies past the positions that as many inserts as there are new hashes evict |
| `MemoryReimport.ReimportWithRoom` | velocity-browser/src/vector_memory.rs:274-341 | it is so while the store has room for every page of the export |
| `MemoryReimport.ReimportRestoresAgain` | velocity-browser/src/vector_memory.rs:274-341 | a full store and an export of its oldest page and a new one: both the first and the second import restore a page |
| `SiteVectorStore.SiteVectorStore.InsertRich` | velocity-browser/src/vector_memory.rs:74-109 | the in-place insert with its eviction and re-indexing loop is the specified one |
| `SiteVectorStore.SiteVectorStore.ExportNda` | velocity-browser/src/vector_memory.rs:254-275 | the export loop builds the specified document |
| `SiteVectorStore.SiteVectorStore.ImportNda` | velocity-browser/src/vector_memory.rs:278-341 | the grouping and restoring loops are the specified import |
| `FileTransfer.CountIsComplete` | drone/src/core.rs:156-158 | counting received chunks decides that every index is present (pigeonhole) |
| `FileTransfer.FirstMissing` | drone/src/core.rs:167-176 | a failed assembly names the least missing index |
| `FileTransfer.MissingIs` | drone/src/core.rs:160-164 | the missing list holds exactly the missing indices, ascending |
| `FileTransfer.Transfer.MissingChunks` | drone/src/core.rs:160-164 | the loop yields that list |
| `FileTransfer.HoldsLastData` | drone/src/core.rs:147-154 | after any calls each index holds the last data accepted for it |
| `FileTransfer.CompleteIffAssembles` | drone/src/core.rs:147-176 | after any calls, complete, nothing missing and assembly succeeding are the same |
| `FileTransfer.AnyDeliveryReassembles` | drone/src/core.rs:147-176 | any split of a file, delivered in any order with repeats and stray indices, reassembles to the file |
| `FileTransfer.Transfer.ReceiveChunk` | drone/src/core.rs:147-154 | the in-place receive is the specified one and keeps the indices in range |
| `FileTransfer.Transfer.IsComplete` | drone/src/core.rs:156-158 | the count test holds exactly when no chunk is missing |
| `FileTransfer.Transfer.Assemble` | drone/src/core.rs:167-176 | the loop yields the concatenation by index, or the first missing index |
| `Base64.NoneIffForeign` | velocity-browser/src/session.rs:2474-2498 | the result is None if and only if some character is outside the alphabets, whitespace and the padding sign |
| `Base64.SextetIs` | velocity-browser/src/session.rs:2482-2489 | the character table of RFC 4648, both alphabets, and nothing else |
| `Base64.SkippedIs` | velocity-browser/src/session.rs:2479-2481 | exactly the ASCII white space characters and the padding sign are skipped |
| `Base64.InsertSkipped` | velocity-browser/src/session.rs:2479-2481 | inserting any of them anywhere changes nothing |
| `Base64.TestVector` | velocity-browser/src/session.rs:2474-2498 | the test vector "foobar" of section 10 of RFC 4648 |
| `Base64.DecodeBytes` | velocity-browser/src/session.rs:2474-2498 | the loop with its wrapping u32 accumulator computes the specified decoding |
| `Base64.OnlyPendingBitsMatter` | velocity-browser/src/session.rs:2474-2498 | bits of the accumulator above the pending ones never influence any output byte, however long the input |
| `Base64.InvertsEncoding` | velocity-browser/src/session.rs:2474-2498 | decoding the sextets of any byte string gives it back, from any accumulator state with no pending bits |
| `Base64.DecodesEveryEncoding` | velocity-browser/src/session.rs:2474-2498 | every text that equals an encoding of the bytes (sections 4 and 5 of RFC 4648, padded or not) up to whitespace and padding signs decodes to them |

## Left out

- The HTTP server, authentication, process spawning, deployment, the GUI, DOM and JavaScript sessions: I/O and operating-system effects.
- SHA-256, AES-GCM and HKDF internals and the sealed envelope: the hash is a parameter, encryption is not modelled.
- Rounding of f32 and f64 in the v2 and INT8 quantisers and their rescaling, and in the outcome score and success rate: real arithmetic, with ties away from zero. FP4, FP2 and ternary rows do cover rounding.
- Non-finite activations and the saturating float-to-integer casts of non-finite values.
- Parallel evaluation of rows: rows are independent and are evaluated in order.
- `NdaMatrix` loading, saving and its report tables; error texts; JSON shapes.
- The encoder's preallocated output buffer: the bytes are appended to a sequence, so allocation size is not modelled.
- `sort_by`, `retain` and `find` of the standard library are functions with the same result; sort stability is modelled.
- `diff_revisions`, the constructors of display commands, `parse_vector_points` and `facts_text`: formatting and table lookups.
- Term frequencies, embeddings, cosine similarity and search in the vector store: floating-point analysis that the index and transfer results do not need.
- Timestamps of tasks, transfers and nodes; a commit's timestamp is a parameter.
- Dictionaries of 2^32 entries or more: pushing, merging and exporting require the dictionary to stay below that, where the cast of the index to u32 is exact.
- Commits when the largest revision index present is 2^64 - 1: the next index would wrap.
- What the unchecked encoder yields when only the pool offset is too large: it depends on the bytes the wrapped offset happens to point at.
- FP4 and FP2 rows whose blocks do not hold whole bytes: only that `validate` lets them through is stated.
- Strings of 2^32 bytes or more in the content hash and the binary stream: their u32 length prefix would be truncated.
- QuadKernel.PopcountRow: does not cover rows of 2^29 elements or more, where the i32 accumulator can overflow.
- QuadPipeline.GemvI8: does not cover 2^23 columns or more, where the i32 accumulator can overflow.
- DroneScheduler.DroneScheduler.SubmitTask: does not model 64-bit wrap-around of the id counter and the other counters, which unbounded integers stand for.
- DiffLoop.Tally: does not model 64-bit wrap-around of the signed counts, which unbounded integers stand for.
- FileTransfer.AnyDeliveryReassembles: compares bytes, not the SHA-256 digest announced with the transfer.
