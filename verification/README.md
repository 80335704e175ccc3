# Rewriting linked binaries: models and proofs

These modules model the part of the binary rewriter that edits finished executables and
libraries at the byte level, and prove what such an edit keeps. Everything works on
little-endian byte sequences (`Bytes`); methods that overwrite a buffer in place work on
arrays, methods that splice, drain or append work on sequences that they reassign, as the
growable vectors of the source do.

| modules | what they model |
|---|---|
| `TrieTree`, `TrieBuild`, `TrieListing`, `NameOrder` | the mutable radix tree behind the Mach-O export trie and the map it denotes |
| `FixedPoint`, `TrieLayout`, `TrieConvergence`, `Uleb128` | the offset loop that lays the tree out, and the numbers it writes |
| `ExportTrie`, `TrieRoundTrip`, `TrieBuilder` | the stack parser, `build`, and the round trip between them |
| `TrieTermination` | on which blobs the stack parser ends |
| `FixupCodec`, `PageGroups`, `FixupChains`, `FixupWriter`, `FixupImage` | the six pointer formats, chains through pointer slots, page starts, writing and walking one segment |
| `ImportPool`, `FixupBlob`, `FixupEmit`, `FixupBlobRead`, `FixupBlobTheorem`, `ChainedFixups` | the imports table and its shared name pool, the whole fixups blob, `read`, `serialize`, `slot_bytes` |
| `Overrides`, `CommitFixups` | byte and section overrides staged for an output file, and committing edited fixups through them |
| `FixupShift` | moving all fixups and their segments by a constant |
| `MachOLayout`, `Growth` | segments and sections, and what inserting bytes in the middle of `__TEXT` does to them |
| `SegmentTable`, `GrowthBytes`, `GrowthTheorem`, `GrowthImage` | the same on the bytes of a file: segment commands read as records, load commands patched in place, and what the grown file's own commands say about it |
| `RebaseOpcodes`, `RebaseShift` | the rebase opcode interpreter and the pass over rebased pointers |
| `UnwindInfo`, `UnwindLookup`, `UnwindExact` | shifting compact unwind information, against an unwinder's lookup |
| `LoadCommands`, `DylibCommands` | editing the load-command list: strip, inject, dylib dependencies |
| `AppendSegment`, `AppendImage`, `AppendTheorem`, `AppendRanges`, `AppendWriter` | appending a segment in front of `__LINKEDIT` |
| `CanonicalLayout`, `Canonicalize`, `CanonicalTheorem`, `CanonicalSettles`, `CanonicalPass`, `CanonicalSurvival` | re-laying `__LINKEDIT` in canonical order |
| `GnuHash`, `GnuLookup` | building `.gnu.hash` and the loader's lookup |
| `Placement` | free regions of `__TEXT`, best fit, and the in-place write |
| `Trampolines`, `Stubs` | branch encoders of four instruction sets and the stubs made of them |
| `SkipMap` | relocation skip spans and the chunks between them |

Each method is proved to compute a named function (`Layout`, `WalkPages`, `Grown`, `ShiftUnwind`,
`Canon`, ...), and the lemmas say what those functions mean: an independent reader, loader,
unwinder or decoder gets back what was put in.

Two maps run through the growth results. `Phi` moves an address at or behind the insertion point
up by `delta`, `Psi` does the same to a file offset; the theorems say that lookups commute with
them.

## Where the code and its description differ

* Two fixups at one slot: the comment promises that the last one wins, `dedup_by_key` behind a
  stable sort keeps the first. `FixupChains.FirstSurvives` says so for every list, and that the
  survivor is the last one if and only if first and last have the same target;
  `FixupChains.SecondIsDropped` gives two fixups of which the second is lost.
* `Ptr64Offset` targets are stored and read without a base, and the userland formats are read
  relative to the segment instead of the image. `FixupCodec.DocumentedExact` says for each format
  when the address read is the documented one (for `Ptr64Offset`, when the load base is 0), and
  `FixupCodec.OffsetReadsBare` gives a word that is read differently. `SegmentRelative` leaves
  `Ptr64Offset` out.
* `measure_imports_blob` recounts the imports of a blob and can count too many.
  `FixupBlob.MeasureOvercounts` gives a blob, `FixupBlob.MeasureExact` the exact condition, and
  `FixupBlobTheorem.BlobRoundTrip` and `BlobReplays` show that the whole blob reads back exactly
  then, with repacked and with replayed imports.
* `parse` of an export trie does not end on every blob. It ends if and only if it enters no cycle
  (`TrieTermination.ParseEnds`): a child is entered once the siblings in front of it are clean, so
  a cycle behind a node that fails to read does no harm (`TrieTermination.CycleNotEntered`). When
  every reachable node reads, it ends if and only if none reaches itself
  (`TrieTermination.ReadableEnds`). `ExportTrie.CyclicBlob` gives five bytes on which it runs on.
  The model's parser takes a number of rounds; its answer is the same for every larger number
  (`TrieTermination.OutcomeStays`), and the round trip shows that the length of the blob is enough
  for everything `build` writes.
* Growing `__TEXT` leaves the rebase opcodes as they are. A location keeps naming its slot exactly
  when it does not lie in the text segment behind the growth point (`RebaseShift.LocationStillNames`,
  and `RebaseShift.StaleLocation` for one that does), and a slot that the opcodes list twice moves
  a pointer into the moved range twice (`RebaseShift.NamedPointer`); in `RebaseShift.ListedTwice` a
  pointer to the growth point of a grown file ends 16 bytes behind where that point went.
* The comment on the load-command patch says that every `__LINKEDIT` sub-table offset moves. The
  pass does not know split-info, code-signing requirements and optimization hints:
  `GrowthImage.DataOffsetFollows` says exactly when such an offset follows its blob, and
  `GrowthImage.SplitInfoStale` gives a file whose split-info does not. Of the commands it does know,
  an offset in front of the growth point would be moved too (`GrowthImage.FieldFollows`).
* Lookup in a `.gnu.hash` section with several buckets finds a listed name exactly when it lies in
  the last run of its bucket (`GnuLookup.ListedName`); `GnuLookup.SplitBucketMisses` gives three
  names of which one is not found. The source asks its callers to sort for this.
* A compressed unwind page whose first function lies before the growth point and whose entry lies
  behind it would need its relative key changed (`UnwindLookup.CompressedKeyMoves`). A lookup in a
  page with ascending keys stays right for every address if and only if the page has no such entry
  (`UnwindLookup.CompressedPageCommutes`), and in a whole section with ascending entries whose
  neighbours differ, every lookup stays right if and only if no page has one
  (`UnwindExact.LookupExact`). `UnwindExact.SplitPageMisses` gives a section and an address that is
  unwound by the wrong encoding after the shift.
* The appended segment claims whole pages of file from the old `__LINKEDIT` offset. That range
  stays in front of the moved `__LINKEDIT` exactly under the condition of
  `AppendTheorem.SegmentEndsBeforeLinkedit`, which `AppendRanges.RangesApart` states of the two
  commands in the finished file; `AppendRanges.SegmentOverrunsLinkedit` appends one byte to a file
  after which they overlap.
* Canonicalization is meant to leave a file alone rather than drop data. It refuses the shapes it
  lists, but plans only the blobs it knows: a byte behind the command list survives if and only if
  it lies in front of `__LINKEDIT` or a planned blob covers it (`CanonicalSurvival.SurvivesExactly`).
  `CanonicalSurvival.HintsAreDropped` gives a file whose optimization hints are cut off while their
  command keeps the offset.
* Stripping a dependency that was just injected gives the file back byte for byte exactly when the
  padding it went into was zero (`DylibCommands.InjectThenStrip`, `DylibCommands.PaddingIsEaten`).
* The header's first byte is offered as free space if and only if `__TEXT` has no file-backed
  section (`Placement.NoSectionsOffersHeader`).
* Merging skip spans truncates lengths to 32 bits. It keeps the covered bytes if and only if every
  run of touching spans is shorter than 4 GiB (`SkipMap.MergeKeepsBytes`); `SkipMap.MergeTruncates`
  gives two spans that lose theirs. Its caller passes spans of 4 or 8 bytes, and fewer than 2^29 of
  those never get there (`SkipMap.SlotsKeepBytes`).

## Model

| member | source | states |
|---|---|---|
| TrieTree.WalkIffPath | src/container/macho_export_trie.rs:200-218 | in a radix tree the loader's walk from the root ends at a node exactly on the name that node's edges spell |
| TrieTree.LookupIffNode | src/container/macho_export_trie.rs:200-218 | a lookup finds a value exactly when some node spells the name and holds the value as its terminal |
| TrieTree.ChildCountFits | src/container/macho_export_trie.rs:301-311 | siblings differ in their first byte, so a node has at most 127 children and its count fits the one byte written |
| TrieBuild.SplitKeepsMap | src/container/macho_export_trie.rs:251-265 | splitting an edge keeps the tree a radix tree and changes no lookup |
| TrieBuild.EditUpdates | src/container/macho_export_trie.rs:229-275 | an edit that adds or sets one terminal updates the denoted map at that name and nowhere else |
| TrieBuild.Tree.Insert | src/container/macho_export_trie.rs:229-275 | from any tree and in any order, insertion denotes map update at the path of the node followed by the name, and keeps the invariant: one parent edge per node, non-empty edges, siblings told apart by their first byte |
| TrieBuild.Tree.NewNode | src/container/macho_export_trie.rs:221-225 | appends one empty node and returns its index |
| TrieListing.ListingIsMap | src/container/macho_export_trie.rs:68-144 | visiting an ascending tree in the parser's order lists exactly the map it denotes, in name order |
| FixedPoint.TimesAscend | src/container/macho_export_trie.rs:176-190 | iterates of a monotone round from zero ascend pointwise |
| FixedPoint.TimesBelow | src/container/macho_export_trie.rs:176-190 | no iterate passes a fixed point, so a table reached at `break` is the least one |
| TrieLayout.EncodedNodeSize | src/container/macho_export_trie.rs:287-298 | the size predicted for a node is the length of its encoding |
| TrieLayout.EncodeNode | src/container/macho_export_trie.rs:301-311 | appends terminal size, terminal, child count, then label, NUL and absolute child offset per child |
| TrieLayout.NextOffsets | src/container/macho_export_trie.rs:179-185 | one round gives every node the sum of the sizes before it under the old table |
| TrieLayout.SettleOffsets | src/container/macho_export_trie.rs:176-190 | the capped loop with its early exit ends on the 16th iterate of the round |
| TrieLayout.UncappedLoopSettles | src/container/macho_export_trie.rs:168-190 | without the cap the loop always ends, on the least self-consistent table |
| TrieConvergence.BoundaryAtMost | src/container/macho_export_trie.rs:168-190 | with nodes at least four bytes apart at most 33 start below offset 128, at most 4097 below 16384 |
| TrieConvergence.RoundMoves | src/container/macho_export_trie.rs:168-190 | below 2 MiB, a round moves no start further than the number of nodes that crossed 128 or 16384 in the round before |
| TrieConvergence.CrossingsShrink | src/container/macho_export_trie.rs:168-190 | the nodes that cross a boundary in three rounds cost four bytes of movement each, paid by the crossings of the three rounds that started one earlier |
| TrieConvergence.SettlesWithinCap | src/container/macho_export_trie.rs:168-190 | if the table after 16 rounds stays below 2 MiB, round 14 at the latest changed nothing and the table is self-consistent |
| TrieRoundTrip.NodeStandsAt | src/container/macho_export_trie.rs:191-197 | under a self-consistent table every node's bytes start at its own offset |
| TrieRoundTrip.ReadNodeOf | src/container/macho_export_trie.rs:78-141 | an encoded node with plain labels and a regular terminal reads back with its terminal, labels and child offsets |
| TrieRoundTrip.EncodedParses | src/container/macho_export_trie.rs:68-144 | parsing the encoding of a tree under a self-consistent table ends and returns the tree's map in name order |
| TrieBuilder.Build | src/container/macho_export_trie.rs:153-198 | the blob encodes a radix tree of the exports; it parses back to them in name order whenever its table settled, and for every blob of at most 2 MiB with no such hypothesis |
| TrieBuilder.BuiltRoundTrip | src/container/macho_export_trie.rs:153-198 | the table of a blob of at most 2 MiB is self-consistent, and self-consistency suffices for the round trip |
| TrieBuilder.CanonicalOfDistinct | src/container/macho_export_trie.rs:153-166 | with distinct names nothing is dropped: the result is a permutation of the exports, sorted by name |
| TrieBuilder.LastOfRunsIsLatest | src/container/macho_export_trie.rs:157-166 | of exports with the same name the last one inserted survives |
| ExportTrie.Parse | src/container/macho_export_trie.rs:68-144 | the stack loop computes `ParseOutcome`: the exports, the first error, or still running |
| ExportTrie.ReadNodeRecord | src/container/macho_export_trie.rs:78-131 | reads one node: bounds, terminal by flags, child records |
| ExportTrie.ReadCString | src/container/macho_export_trie.rs:374-391 | returns the NUL-terminated UTF-8 string and the cursor behind it, or which of the two it is not |
| TrieTermination.ParseEnds | src/container/macho_export_trie.rs:68-144 | `parse` ends if and only if no node it enters, over siblings that are clean, leads back to itself; it returns exports if and only if everything below the root reads and nothing there repeats |
| TrieTermination.ReadableEnds | src/container/macho_export_trie.rs:68-144 | if every node reachable from the root reads, `parse` ends if and only if no reachable node reaches itself |
| TrieTermination.OutcomeStays | src/container/macho_export_trie.rs:68-144 | exports or an error reached after some rounds are what every larger number of rounds gives |
| TrieTermination.CycleNotEntered | src/container/macho_export_trie.rs:72-141 | a root that is its own second child behind a first child that does not read: `parse` fails instead of running on |
| ExportTrie.CyclicBlob | src/container/macho_export_trie.rs:72-141 | five concrete bytes on which `parse` never returns |
| Uleb128.WriteUleb128 | src/container/macho_export_trie.rs:351-363 | appends the ULEB128 encoding |
| Uleb128.ReadUleb128 | src/container/macho_export_trie.rs:327-349 | reads with the source's shift limit, truncation and error cases |
| Uleb128.Uleb128Size | src/container/macho_export_trie.rs:365-372 | computes the length of the encoding without writing it |
| Uleb128.ReadOfEncode | src/container/macho_export_trie.rs:327-363 | every u64 written reads back, wherever it stands |
| Uleb128.SizeBound | src/container/macho_export_trie.rs:365-372 | a number takes at most k bytes exactly when it is below 128^k |
| FixupCodec.CodecExact | src/container/chained_fixups.rs:722-800 | in all six formats, encoding then decoding a slot returns target and `next` exactly when the target's fields fit the format |
| FixupCodec.WordDecodes | src/container/chained_fixups.rs:1335-1406 | every encoded word fits 64 bits and decodes to its `next` and to what truncation keeps of the target |
| FixupCodec.DocumentedExact | src/container/chained_fixups.rs:66-96 | per format, a rebase word reads as the absolute address its documentation gives it if and only if no load base is missing (for `Ptr64Offset`: the load base is 0) and the target fits 36 bits |
| FixupCodec.OffsetReadsBare | src/container/chained_fixups.rs:722-751 | an offset word of an image loaded at 4 GiB reads as the bare offset |
| FixupCodec.FromRawOfToRaw | src/container/chained_fixups.rs:128-154 | format numbers round trip |
| FixupChains.SortSorts | src/container/chained_fixups.rs:879-886 | sorting by address is a permutation in order |
| FixupChains.DedupStrict | src/container/chained_fixups.rs:879-886 | dropping repeated addresses of a sorted list leaves strictly ascending members of it |
| FixupChains.FirstSurvives | src/container/chained_fixups.rs:879-886 | a fixup survives sorting and dropping if and only if it is the first of the given list at its address; it is then the last one too if and only if first and last have the same target |
| FixupChains.SecondIsDropped | src/container/chained_fixups.rs:879-886 | of two fixups at one address the second, which the comment promises, is lost |
| FixupChains.StartsAndNextsFit | src/container/chained_fixups.rs:1278-1317 | a page with fixups never gets the 0xFFFF sentinel as its start, and every `next` fits its field |
| FixupChains.PageWalks | src/container/chained_fixups.rs:615-645 | a page start is the sentinel exactly when the page is empty and otherwise leads to exactly the page's fixups |
| FixupChains.ChainRoundTrip | src/container/chained_fixups.rs:579-649 | with all slots written, walking from the page starts returns exactly the sorted fixups |
| FixupWriter.SegmentSlots | src/container/chained_fixups.rs:1004-1051 | yields one word per sorted fixup and no other, or the error of a word that cannot be encoded |
| FixupWriter.CollectStarts | src/container/chained_fixups.rs:1301-1317 | succeeds exactly when neighbours on a page are close enough, and then records each page's first fixup |
| FixupWriter.BuildStartsInSegment | src/container/chained_fixups.rs:1252-1333 | succeeds exactly when every fixup is aligned and within reach of its neighbour; the payload is the header and the page starts |
| FixupImage.WalkOneChain | src/container/chained_fixups.rs:622-642 | follows one chain to its zero `next` or the end of the segment's file bytes |
| FixupImage.WalkOneSegment | src/container/chained_fixups.rs:579-649 | parses a starts_in_segment, walks every page and sorts, with the source's error cases |
| FixupImage.WriteSlots | src/container/chained_fixups.rs:981-996 | in place: succeeds exactly when every slot lies in the image; disjoint slots all stand, every other byte keeps its value |
| FixupImage.SegmentRoundTrip | src/container/chained_fixups.rs:579-649 | with payload and slots in the image, reading the segment returns format, page size and the sorted fixups |
| ImportPool.BuildPool | src/container/chained_fixups.rs:1065-1083 | every symbol stands NUL-terminated at its offset, and equal symbols share one |
| ImportPool.BuildImportsBlob | src/container/chained_fixups.rs:1061-1163 | promotes formats as needed, fails exactly on an addend that does not fit 32 bits, and emits table then pool |
| ImportPool.DecodeImportsLoop | src/container/chained_fixups.rs:651-720 | decodes `count` entries and their names, or reports truncation |
| ImportPool.ImportsRoundTrip | src/container/chained_fixups.rs:1061-1163 | whatever was promoted and however names are shared, decoding returns every symbol, weak bit and addend, and the imports themselves exactly when every ordinal is a 16-bit number |
| FixupBlob.MeasureImportsBlob | src/container/chained_fixups.rs:1165-1250 | the counting loop computes `Measure` |
| FixupBlob.MeasureAtLeast | src/container/chained_fixups.rs:1165-1250 | the count is never short of what was written |
| FixupBlob.MeasureExact | src/container/chained_fixups.rs:1165-1250 | the count is exact if and only if the pool's first bytes do not pass for one more entry |
| FixupBlob.MeasureOvercounts | src/container/chained_fixups.rs:1165-1250 | two one-letter names and a long one: a blob of three imports counted as at least four |
| FixupEmit.LayOut | src/container/chained_fixups.rs:907-918 | assigns each payload its four-aligned offset, 0 to a segment without one, and the imports the end |
| FixupEmit.PutPayloads | src/container/chained_fixups.rs:952-958 | copies each payload to its offset and leaves the padding zero |
| FixupEmit.Emit | src/container/chained_fixups.rs:927-968 | piecewise copying into a zeroed buffer gives header, starts_in_image, payloads, imports and zero padding to eight bytes |
| FixupBlobRead.ReadTables | src/container/chained_fixups.rs:356-466 | reads header, imports and segments with the source's checks in its order |
| FixupBlobRead.SegmentsRead | src/container/chained_fixups.rs:411-451 | when the offset table leads to laid-out segments, the loop returns them sorted, skipping the others |
| FixupBlobTheorem.StartsRead | src/container/chained_fixups.rs:944-958 | entry k of the written offset table leads to payload k, or is 0 without one |
| FixupBlobTheorem.BlobRoundTrip | src/container/chained_fixups.rs:829-969 | reading an image that holds a serialized blob with repacked imports, in a range with room to spare, and its slots returns the imports as the table keeps them, every segment's sorted fixups and the imports bytes, if and only if the recount equals the number of imports |
| FixupBlobTheorem.BlobReplays | src/container/chained_fixups.rs:867-875 | the same with replayed imports: any table that decoded where it stood, its pool right behind it, reads back from the new blob if and only if the recount equals the number of imports |
| FixupBlobTheorem.ReadKeepsImports | src/container/chained_fixups.rs:356-466 | the imports bytes that `read` remembers decode by themselves to the imports it returned, when the symbols offset lies right behind the table |
| ChainedFixupTables.ChainedFixups.constructor | src/container/chained_fixups.rs:458-466 | fresh tables are the ones read, with the imports remembered as unchanged |
| ChainedFixupTables.ChainedFixups.Serialize | src/container/chained_fixups.rs:829-969 | accepts only aligned, housed fixups bound to existing imports; replays untouched imports and repacks edited ones; emits the blob of one payload per listed segment, the last entry's when two name one segment; says when it refuses |
| ChainedFixupTables.ChainedFixups.ShiftBy | src/container/chained_fixups.rs:549-558 | every slot address and rebase target moves by `delta`, saturating; nothing else changes |
| ChainedFixupTables.ChainedFixups.SlotBytes | src/container/chained_fixups.rs:1004-1051 | one word per fixup of every segment and no other; refuses only a missing segment or an addend over 19 bits |
| ChainedFixupTables.ChainedFixups.EncodeIntoSegments | src/container/chained_fixups.rs:981-996 | with fixups at least 8 bytes apart every segment's slots stand in the image; no byte outside a slot changes |
| Overrides.ApplyRawByteOverrides | src/container/macho_writer.rs:153-171 | in place: the patches applied in order, or the first that does not fit |
| Overrides.PatchesStand | src/container/macho_writer.rs:153-171 | patches apart from one another all stand in the result, whatever their order |
| Overrides.SucceedsWhenAllFit | src/container/macho_writer.rs:153-171 | applying them succeeds if and only if every patch lies inside the file |
| Overrides.ApplySectionOverrides | src/container/macho_writer.rs:995-1018 | in place: each override replaces the bytes of the file-backed section at its address, other sections are skipped; succeeds exactly when every size matches and every section lies in the file |
| CommitFixups.CommitFull | src/rewrite/editor.rs:2165-2245 | stages the serialized blob, zero-padded to its room, and then every slot; refuses a slot or table that cannot be written, or a blob larger than its room |
| CommitFixups.CommitReads | src/rewrite/editor.rs:2202-2245 | whatever is committed with edited imports and applied to the file reads back, through the load command's range, as those imports and every segment's sorted fixups, if and only if the recount equals the number of imports |
| CommitFixups.CommitReplays | src/rewrite/editor.rs:2202-2245 | the same for a commit that leaves the imports as they were read |
| ChainedFixupTables.CheckFixup | src/container/chained_fixups.rs:843-864 | reports misalignment, then placement, then a bad import, and nothing else |
| ChainedFixupTables.ShiftByWalks | src/container/chained_fixups.rs:549-558 | after a shift by a multiple of the stride, the page starts written before lead through the new slots to exactly the moved fixups |
| FixupShift.SaturationFree | src/container/chained_fixups.rs:549-558 | the shift is exact if and only if address and target stay below 2^64 |
| FixupShift.ShiftedAligned | src/container/chained_fixups.rs:549-558 | alignment survives exactly the multiples of the stride |
| FixupShift.ShiftedFields | src/container/chained_fixups.rs:1335-1406 | a shifted fixup fits its format if and only if its absolute target still fits 36 bits |
| FixupShift.RelativeWordsStay | src/container/chained_fixups.rs:1335-1406 | in segment-relative formats the slot words do not change at all |
| FixupShift.ShiftedStarts | src/container/chained_fixups.rs:1252-1333 | shifting fixups and segment together changes no page start |
| FixupShift.ShiftedWalks | src/container/chained_fixups.rs:579-649 | the old page starts lead, in an image of the shifted slots, to exactly the shifted fixups |
| SegmentTable.ParseSegment | src/container/macho_image.rs:900-978 | a segment command gives the record of its header and one record per section, and nothing exactly when it is too short for them |
| GrowthBytes.ShiftSegmentSections | src/container/macho_writer.rs:1830-1862 | in place: every section at or behind the threshold moves in address, file offset and relocation offset, zeros staying zero; no other byte changes |
| GrowthBytes.FindInsertVaddr | src/container/macho_writer.rs:1705-1733 | the address of the growth point, from the first segment command whose file range holds it, or the growth point itself |
| GrowthBytes.ApplyGrowth | src/container/macho_writer.rs:1678-1825 | in place: the walk patches segments, offset fields and the entry point of each command, or stops at a malformed size |
| GrowthTheorem.SegmentGrows | src/container/macho_writer.rs:1745-1772 | the patched bytes of a segment command parse to the grown record: text grows, segments behind it move, others stay, sections follow |
| GrowthTheorem.RelocationsGrow | src/container/macho_writer.rs:1830-1862 | a section's relocation offset moves exactly when its section does |
| GrowthImage.GrowthWrites | src/container/macho_writer.rs:1678-1862 | on a well-formed file that is each command patched where it stands and nothing else; the counts still agree, and the patched list parses to the grown segments |
| GrowthImage.OriginalStays | src/container/macho_writer.rs:1096-1142 | every byte behind the command list stands at Psi of its offset in the finished file |
| GrowthImage.FieldFollows | src/container/macho_writer.rs:1773-1806 | a patched offset field is Psi of what it was if and only if it was zero or behind the growth point, and a blob behind it is reached whole |
| GrowthImage.EntryFollows | src/container/macho_writer.rs:1807-1819 | the entry point of `LC_MAIN` is Psi of what it was |
| GrowthImage.DataOffsetFollows | src/container/macho_writer.rs:1675-1807 | the offset of a blob of `__LINKEDIT`, of whichever command, is Psi of what it was if and only if the pass knows the command and the blob moved, or does not and the blob stayed |
| GrowthImage.SplitInfoStale | src/container/macho_writer.rs:1675-1807 | a file of one split-info command: after growing, its blob is 16 bytes further on and the command still names the old place |
| GrowthImage.RebasedSlotHolds | src/container/macho_writer.rs:1096-1204 | in the finished file the pointer at Psi of its slot is Phi of the old one, if and only if it is not in the moved range or located once |
| GrowthImage.RebasedPointerReaches | src/container/macho_writer.rs:1096-1204 | the finished file holds the patched command list, whose sections map Phi of an address to Psi of the old offset, and there stands the old byte unless a rebased pointer does |
| Growth.GrownSegment | src/container/macho_writer.rs:1678-1825 | the text segment grows by `delta`, every segment behind it in memory moves by it, the others stay |
| Growth.DisjointnessKept | src/container/macho_writer.rs:1678-1825 | two segments are disjoint in memory after growth if and only if they were before, zero-fill segments with file offset 0 included |
| Growth.LookupCommutes | src/container/macho_image.rs:762-779 | looking up Phi of any address in the grown section table gives Psi of what the address gave before, mapped or not |
| Growth.GapIsFree | src/container/macho_writer.rs:1678-1862 | no section claims an inserted address |
| Growth.GrownWellFormed | src/container/macho_writer.rs:1678-1862 | a grown image is well formed at the moved growth point, so it can be grown again |
| Growth.GrowthAdds | src/container/macho_writer.rs:1678-1862 | growing twice equals growing once by the sum, for every image that is well formed before each step, empty sections included |
| RebaseOpcodes.Uleb | src/container/macho_dyld_info.rs:74-88 | the wrapping reader: bits from the 64th on are dropped, however long the number |
| RebaseOpcodes.WideAgrees | src/container/macho_dyld_info.rs:74-88 | wherever the export trie's strict reader succeeds, this one returns the same |
| RebaseOpcodes.Execute | src/container/macho_dyld_info.rs:93-148 | one opcode: the slots it emits, the new registers and the next cursor, or its error |
| RebaseOpcodes.RebaseLocations | src/container/macho_dyld_info.rs:93-148 | the opcode loop computes the locations of the stream |
| RebaseOpcodes.CompactIsExpanded | src/container/macho_dyld_info.rs:93-148 | the counted, skipping opcode means that many single skipping rebases |
| RebaseOpcodes.ListingReads | src/container/macho_dyld_info.rs:93-148 | any list of slots in the first sixteen segments can be named and reads back exactly, whatever the registers held |
| RebaseShift.ShiftRebasedPointers | src/container/macho_dyld_info.rs:154-190 | in place on the grown image: each located pointer into the moved range gains `delta`, with the count and the error cases |
| RebaseShift.SucceedsWhenValid | src/container/macho_dyld_info.rs:154-190 | the pass succeeds if and only if every location names a slot inside the image |
| RebaseShift.NamedPointer | src/container/macho_dyld_info.rs:154-190 | a located pointer ends as Phi of what it was if and only if it does not target the moved range or is located once |
| RebaseShift.ListedTwice | src/container/macho_dyld_info.rs:154-190 | a grown file of 16 bytes whose first slot is listed twice and points to the growth point: Phi of the pointer is 24, the pass leaves 40 |
| RebaseShift.PassKeeps | src/container/macho_dyld_info.rs:154-190 | a byte outside every located slot keeps its value |
| RebaseShift.GrowFile | src/container/macho_writer.rs:1096-1113 | inserts `delta` zero bytes and copies the payload into them, exactly when it fits |
| RebaseShift.OriginalByte | src/container/macho_writer.rs:1096-1113 | every original byte stands at Psi of its offset |
| RebaseShift.SlotHoldsMovedPointer | src/container/macho_writer.rs:1096-1204 | the pointer at Psi of its slot is Phi of the old one, if and only if it is not in the moved range or located once |
| RebaseShift.MovedPointerReaches | src/container/macho_writer.rs:1096-1204 | following the moved pointer through the patched sections reaches Psi of the old file offset and the same byte, unless that byte is itself part of a rebased slot |
| RebaseShift.LocationStillNames | src/container/macho_dyld_info.rs:154-190 | an untouched location still names its moved slot if and only if it is not in the text segment behind the growth point |
| RebaseShift.StaleLocation | src/container/macho_dyld_info.rs:154-190 | a concrete location behind the growth point names an offset 0x4000 bytes short of its slot |
| UnwindInfo.ShiftUnwindInfo | src/container/macho_unwind.rs:31-93 | in place: personalities, index, LSDA records and regular pages pass through `shift_at`, stopping at the first field outside the section |
| UnwindLookup.PassIsList | src/container/macho_unwind.rs:31-93 | the nested passes shift exactly the absolute fields of the original section, one after the other |
| UnwindLookup.ListMovesOnce | src/container/macho_unwind.rs:21-28 | with disjoint fields each absolute field moves exactly once |
| UnwindLookup.CompressedKeyMoves | src/container/macho_unwind.rs:61-90 | a compressed entry's key moves with its base if and only if the base lies behind the growth point or the function in front of it |
| UnwindLookup.CompressedPageCommutes | src/container/macho_unwind.rs:61-90 | in a compressed page with ascending keys, searching for every moved address finds the old entry if and only if the page starts behind the growth point or no entry lies behind it |
| UnwindLookup.HandlersMove | src/container/macho_unwind.rs:31-93 | every personality slot moves with its routine, and the language-specific data found for a moved function is the moved data of that function |
| UnwindLookup.LookupCommutes | src/container/macho_unwind.rs:31-93 | unwinding Phi of an address after the shift finds the encoding that unwinding the address found before |
| UnwindExact.LookupExact | src/container/macho_unwind.rs:31-93 | in a section with ascending keys whose neighbouring entries differ, the lookup commutes for every address if and only if no compressed page that starts before the growth point has a function behind it |
| UnwindExact.SplitPageMisses | src/container/macho_unwind.rs:61-90 | the bytes of a section with one such page: shifting it succeeds, and Phi(31) is then looked up as encoding 9 where 31 was 7 |
| UnwindLookup.FieldsStaySorted | src/container/macho_unwind.rs:31-93 | two fields are in the same order after the shift as before, so index and regular pages stay sorted |
| LoadCommands.FindFirst | src/container/macho_writer.rs:2208-2233 | the walk finds the first command that passes, or the malformed size it meets |
| LoadCommands.FindWalks | src/container/macho_writer.rs:2208-2233 | on a well-formed list it stops at the first command that passes |
| LoadCommands.StripFirst | src/container/macho_writer.rs:2258-2297 | removes one command, closes up, zero-fills and patches the counts |
| LoadCommands.StripEncodes | src/container/macho_writer.rs:2258-2297 | on a well-formed file the result is the file without the first matching command |
| LoadCommands.StripNothing | src/container/macho_writer.rs:2258-2297 | without a matching command no byte changes |
| LoadCommands.StrippedWellFormed | src/container/macho_writer.rs:2258-2297 | `ncmds` and `sizeofcmds` agree with the list after every removal |
| LoadCommands.InjectAll | src/container/macho_writer.rs:728-771 | splices commands in before the code signature or last, drains as much padding, patches the counts |
| LoadCommands.InjectEncodes | src/container/macho_writer.rs:728-771 | on a well-formed file the result is the file with the commands inserted |
| LoadCommands.InjectedWellFormed | src/container/macho_writer.rs:728-771 | `ncmds` and `sizeofcmds` agree with the list after every injection |
| DylibCommands.CommandSize | src/container/macho_writer.rs:776-779 | the least multiple of eight that holds header, path and NUL |
| DylibCommands.StripLcLoadDylib | src/container/macho_writer.rs:832-905 | removes the first command naming the path and reports its size |
| DylibCommands.InjectLcLoadDylibs | src/container/macho_writer.rs:728-771 | injects one built command per dependency |
| DylibCommands.BuiltNames | src/container/macho_writer.rs:783-813 | a built command reads back as its path if and only if the path is NUL-free UTF-8 |
| DylibCommands.InjectThenStrip | src/container/macho_writer.rs:728-905 | injecting a new dependency and stripping it restores the file byte for byte, if and only if the padding it went into was zero |
| DylibCommands.PaddingIsEaten | src/container/macho_writer.rs:728-905 | a file with non-zero padding that injecting and stripping does not restore |
| AppendSegment.ChosenSizeFits | src/container/macho_writer.rs:2420-2429 | a size is chosen if and only if the small one fits with dependencies and a code signature; the chosen one fits |
| AppendSegment.ReclaimHeaderpad | src/container/macho_writer.rs:2305-2316 | every byte reported freed is a byte the list got shorter |
| AppendSegment.StripImageKeeps | src/container/macho_writer.rs:2258-2297 | stripping moves nothing behind the old end of the list |
| AppendImage.Relocate | src/container/macho_writer.rs:478-511 | payload at the old `__LINKEDIT` offset, zeros to the page, `__LINKEDIT` behind them |
| AppendImage.ShiftLinkeditOffsets | src/container/macho_writer.rs:604-720 | the cursor walk patches every command where it stands, or stops at a malformed size |
| AppendImage.PatchWalks | src/container/macho_writer.rs:604-720 | on a well-formed list that patches each command and nothing else |
| AppendImage.PatchedField | src/container/macho_writer.rs:604-720 | every nonzero `__LINKEDIT` offset field gains the shift exactly once, zero stays zero |
| AppendTheorem.SegmentEndsBeforeLinkedit | src/container/macho_writer.rs:478-511 | the new segment's page-rounded file range ends before the moved `__LINKEDIT` if and only if the old offset was aligned, the payload empty, or its last page already ran over |
| AppendRanges.RangesApart | src/container/macho_writer.rs:478-572 | in the finished file the new command's file range ends before the range of the moved `__LINKEDIT` command exactly under that condition |
| AppendRanges.SegmentOverrunsLinkedit | src/container/macho_writer.rs:478-572 | a file of one segment command: appending one byte at offset 272 gives a command that claims file up to 272 + 0x4000 and a `__LINKEDIT` command that starts at 0x4000 |
| AppendTheorem.LowestIsLeast | src/container/macho_image.rs:704-725 | no section with file content starts below what headerpad measures up to |
| AppendTheorem.ChosenLeavesRoom | src/container/macho_writer.rs:392-417 | with a chosen size, list, new commands and the reserved code signature end at or before the first content |
| AppendTheorem.AppendConserves | src/container/macho_writer.rs:386-572 | list and reserved bytes end before the content; content up to `__LINKEDIT` keeps offset and value; `__LINKEDIT` stands whole further on; every surviving command is listed, patched |
| AppendTheorem.BlobReached | src/container/macho_writer.rs:604-720 | a blob reached through its patched offset field is byte-identical to the one the old field reached |
| AppendTheorem.AnyCollision | src/container/macho_writer.rs:361-384 | true exactly when the new address range meets a segment |
| AppendWriter.OverrideCommutes | src/container/macho_writer.rs:418-443 | overriding bytes behind the list and stripping commands give the same file in either order |
| AppendWriter.WriteWithAppendedSegment | src/container/macho_writer.rs:347-598 | refuses exactly an address range past 2^64 or on a segment, no room, no `__LINKEDIT`, a section override of the wrong size or past the end; otherwise appends to the overridden image and applies the raw overrides, or names the first that does not fit |
| CanonicalLayout.PackBlobs | src/container/macho_writer.rs:1485-1498 | lays the blobs out padded to eight and reports their starts |
| CanonicalLayout.PackedAt | src/container/macho_writer.rs:1485-1498 | every blob stands at its start, eight-aligned and clear of its successor |
| CanonicalTheorem.PlanEntry | src/container/macho_writer.rs:1455-1477 | the plan lists distinct fields in strictly canonical order |
| CanonicalTheorem.CanonShape | src/container/macho_writer.rs:1357-1512 | header and everything between the list and `__LINKEDIT` stay; the packed blobs end the file |
| CanonicalTheorem.BlobMoves | src/container/macho_writer.rs:1479-1506 | each blob is byte-identical at its repointed, eight-aligned offset, inside the file and in front of the blobs that follow |
| CanonicalTheorem.SizesStand | src/container/macho_writer.rs:1507-1510 | `__LINKEDIT` covers exactly the packed blobs and its address range is whole pages |
| CanonicalTheorem.OtherBytesStay | src/container/macho_writer.rs:1501-1511 | a command byte outside every patched field keeps its value |
| CanonicalPass.Collect | src/container/macho_writer.rs:1369-1414 | gathers commands and positions; gives up on a malformed list or a foreign command |
| CanonicalPass.PatchFile | src/container/macho_writer.rs:1501-1510 | in-place field writes on the file are the writes on its commands |
| CanonicalPass.CanonicalizeLinkedit | src/container/macho_writer.rs:1357-1512 | re-lays exactly the images it models and returns every other file unchanged |
| CanonicalSettles.Settles | src/container/macho_writer.rs:1357-1512 | the pass acts again on its own result and changes nothing |
| CanonicalSurvival.SurvivesExactly | src/container/macho_writer.rs:1349-1512 | a byte behind the command list stands somewhere in the result, whatever its value, if and only if it lay in front of `__LINKEDIT` or a planned blob covers it |
| CanonicalSurvival.HintsAreDropped | src/container/macho_writer.rs:1349-1512 | a file on which the pass acts: the eight bytes of its optimization hints are gone and their command is unchanged |
| CanonicalPass.SecondPassIsIdentity | src/container/macho_writer.rs:1357-1512 | on bytes: the result parses, is acted on again, and comes out identical |
| GnuHash.ComputeHash | src/container/gnu_hash.rs:57-63 | h = 5381, then 33 h + byte modulo 2^32 |
| GnuHash.BloomPasses | src/container/gnu_hash.rs:119-134 | the filter never rejects a hash it was built from |
| GnuLookup.BuildGnuHash | src/container/gnu_hash.rs:93-177 | header, bloom words, buckets and chain words as the tables of the symbols' hashes |
| GnuLookup.SectionReads | src/container/gnu_hash.rs:107-176 | a loader's word reads give the header, every bloom word, every bucket and every chain word |
| GnuLookup.BucketIsLastStart | src/container/gnu_hash.rs:135-155 | a bucket names the start of its last run |
| GnuLookup.WalkSees | src/container/gnu_hash.rs:156-167 | the chain walk sees the entries up to its run's end and no others |
| GnuLookup.ListedName | src/container/gnu_hash.rs:26-46 | a listed name is found at its index if and only if it lies in the last run of its bucket |
| GnuLookup.SplitBucketMisses | src/container/gnu_hash.rs:26-46 | three one-byte names alternating between two buckets: the first is listed and not found |
| GnuLookup.UnlistedName | src/container/gnu_hash.rs:93-177 | no other name is found, contiguous buckets or not |
| GnuLookup.LookupExact | src/container/gnu_hash.rs:26-46 | with contiguous buckets bloom, bucket and chain walk find exactly the listed names, each at its index |
| GnuLookup.OneBucketIsContiguous | src/container/gnu_hash.rs:30-38 | one bucket is always contiguous |
| Placement.TextFreeRegions | src/container/macho_image.rs:210-272 | the cursor loop computes the gaps between sorted sections and the tail |
| Placement.RegionsExact | src/container/macho_image.rs:210-272 | the regions hold exactly the file bytes behind the header that no section claims, at the segment's addresses |
| Placement.NoSectionsOffersHeader | src/container/macho_image.rs:210-272 | the header's first byte lies in a free region if and only if no section of `__TEXT` is file-backed |
| Placement.AlignUp | src/container/macho_image.rs:354-359 | the least multiple at or above the value; alignment 0 or 1 changes nothing |
| Placement.AllocateInText | src/container/macho_image.rs:326-351 | None exactly when nothing fits; otherwise the first of the fitting regions with least leftover, aligned |
| Placement.PlacementIsSafe | src/container/macho_image.rs:326-351 | the range is aligned, addressed consistently, inside `__TEXT`, behind the header and free of sections |
| Placement.NoneMeansNoRange | src/container/macho_image.rs:326-351 | a region fits if and only if `__TEXT` has any aligned range of that size behind its header that no section overlaps or, when empty, starts inside |
| Placement.WriteIntraText | src/container/macho_writer.rs:953-1046 | succeeds exactly when the range lies in one free region at the consistent offset, every section override has its section's size and every patch lies inside the file; then it is the file with payload, section overrides and raw overrides written in that order |
| Placement.PlacementAccepted | src/container/macho_writer.rs:965-1034 | what best fit returns passes those checks |
| Placement.SectionsKept | src/container/macho_writer.rs:995-1046 | every section of `__TEXT` keeps its bytes wherever no override was asked for |
| Placement.OverrideStands | src/container/macho_writer.rs:995-1046 | patches apart from one another all stand: the payload, every override of a section the file holds, every raw override |
| Trampolines.A64Branches | src/container/elf_writer.rs:1172-1199 | an encoded `B` decodes to its displacement |
| Trampolines.A32Branches | src/container/elf_writer.rs:1289-1312 | an encoded A32 `B` decodes to its displacement past the eight-byte pipeline |
| Trampolines.ThumbBranches | src/container/elf_writer.rs:1250-1288 | an encoded `B.W` decodes, through S, J1 and J2, to its displacement (section A8.8.18 of ARM DDI 0406C) |
| Trampolines.X86Branches | src/container/elf_writer.rs:1120-1143 | an encoded `jmp rel32` decodes to its displacement past the instruction |
| Stubs.FillNops | src/container/elf_writer.rs:1147-1156 | fills a zeroed buffer with whole no-ops and leaves the remainder zero |
| Stubs.BuildStub | src/container/elf_writer.rs:1077-1317 | the loop over symbols overwrites the padding with one branch per function, or stops at its error |
| Stubs.BuildsWhenPlaceable | src/container/elf_writer.rs:1077-1317 | a stub is built if and only if every selected entry lies in the extent and reaches its target |
| Stubs.EntriesForward | src/container/elf_writer.rs:1103-1317 | at every function entry the processor branches to the same offset of the new segment, Thumb code staying Thumb |
| Stubs.OtherUnitsAreNops | src/container/elf_writer.rs:1103-1317 | every whole unit away from the entries is a no-op |
| SkipMap.MergeAdjacent | src/container/dynamic_relocs.rs:248-266 | the loop that extends the last span computes `Merge` |
| SkipMap.MergeKeepsBytes | src/container/dynamic_relocs.rs:248-266 | merging sorted, positive spans keeps the covered bytes if and only if every run of touching spans is shorter than 4 GiB; the result is then those runs, strictly separated |
| SkipMap.MergeTruncates | src/container/dynamic_relocs.rs:248-266 | two touching spans of 4 GiB together merge to an empty one |
| SkipMap.SlotsKeepBytes | src/container/dynamic_relocs.rs:187-266 | fewer than 2^29 sorted spans of 4 or 8 bytes, as the relocation readers make them, keep the covered bytes when merged |
| SkipMap.ChunkIterator.Next | src/container/dynamic_relocs.rs:151-185 | each call takes the first pending chunk off the rest of the range |
| SkipMap.ChunksExact | src/container/dynamic_relocs.rs:151-185 | the chunks are ordered, non-empty, disjoint and cover exactly the uncovered bytes of the range |
| SkipMap.OverlapMeansSplit | src/container/dynamic_relocs.rs:127-133 | a non-empty range overlaps no span if and only if it is one whole chunk |

## Left out

- Names are modelled as NUL-free ASCII byte sequences, because the tree slices strings at byte positions; other names are not covered by the trie results.
- `sign_ad_hoc`, temporary files and everything else that shells out; a code signature is only room reserved for one.
- The readers and writers built on the `object` crate, and the Mach-O header parser: images enter as segment and section records or as header, command list and rest.
- Re-exports and stub-and-resolvers through `build`: the builder does not write their payloads, so its results ask for regular flags. The parser model reads both.
- TrieBuilder.Build: for blobs over 2 MiB the round trip asks that the capped loop ended on a self-consistent table, as the source only ends there when it leaves by `break`.
- ExportTrie.Parse: `rounds` bounds the loop, because the source does not end on a blob whose cycle it enters; `TrieTermination.ParseEnds` says which those are.
- ChainedFixupTables.ChainedFixups.Serialize: a page size of 0 is excluded (the source divides by it) and the imports format is one that `read` accepts.
- FixupBlobTheorem.BlobReplays: asks that the original file put its pool right behind the table, where `serialize` points the symbols offset to. Blobs are below 4 GiB, as offsets are 32-bit words.
- FixupImage.SegmentRoundTrip: page sizes and page counts are 16-bit numbers, as the format stores them.
- Authenticated pointers, `PTR_32`, kernel-cache and firmware formats: the code refuses or drops them; the decoder model reads an authenticated bind with addend 0 as the code does.
- ImportPool.BuildImportsBlob: only requests for the three known formats; the source treats any other as unreachable.
- GrowthBytes.ApplyGrowth: a segment command too short for its sections, which the parser refuses, is left alone; the source would read on into the commands behind it.
- SegmentTable.ParseSegment: names are taken byte by byte up to their NUL; the lossy decoding of bytes outside ASCII is not modelled. Protections and reserved fields are not part of the record.
- The rest of the growth: init offsets, symbol-table and export-trie values, the relocated export trie and fixups blob, and overrides in a grown file.
- UnwindLookup.LookupCommutes: asks that no absolute field overlaps another, a header or an encoding, and that no compressed page that starts before the growth point has a function behind it; `UnwindExact.LookupExact` shows that the latter is needed in sections with ascending keys whose neighbours differ.
- AppendWriter.WriteWithAppendedSegment: the exports extension and signing are not modelled; a segment command shorter than its fields is left alone; an overridden section past the end of the file is an error where the source panics.
- CanonicalPass.CanonicalizeLinkedit: asks that `__LINKEDIT` starts between the end of the command list and the end of the file and that patched commands are as long as their fields. Past the end of the file the source truncates nothing and puts the blobs in front of the offsets it records; inside the list it cuts the list off; of a short command it reads and patches the bytes behind it, or panics at the end of the file.
- CommitFixups.CommitReads: asks for what the format can hold, which the source does not check: 16-bit page sizes and counts, slots inside the file bytes of their segment, targets that fit their fields, slots that neither overlap one another nor the blob's room.
- CommitFixups.CommitFull: the room of the fixups command is a parameter; a file without the command is not modelled.
- CanonicalSettles.Settles: files below 4 GiB, as blob offsets are 32-bit words.
- Placement.WriteIntraText: signing is not modelled; an overridden section past the end of the file is an error where the source panics.
- Placement.AlignUp: rounds up for every alignment; the source masks, which is the same only for the powers of two that callers pass.
- SkipMap.Relevant: no span for a reversed range, where slicing panics in the source.
- GnuLookup.BuildGnuHash: a bloom size that is a power of two, at least one bucket and a shift below 32, as the source asserts or its shifts require.
- Overflow of 64-bit sums in address arithmetic, which aborts a debug build, is not modelled except where the source saturates or wraps.
- `repoint_fixup`, `to_map`, symbol-table rewriting, dynsym extension, the PE writer, ObjC, Swift and DWARF readers, examples and the Python importer: simple round trips or best-effort lookups.
