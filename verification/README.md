# Verification of the generator

A model of the parts of GoWin-AFO's generator whose behaviour spans many steps, and
proofs about it. `dafny verify dfyconfig.toml` checks the whole project.

| modules | what they model |
|---|---|
| FileTree, Disks | a file system as a map from paths to nodes, with operations any of which may fail; the disk records every tree it has passed through |
| Transaction, Generation | the all-or-nothing commit of generated output, and a whole run with its list of targets and its staging directory |
| SlicePaths, SliceWrite | the reviewed slice, written with its manifest last |
| CompressedInts, Signatures, TableStream | the ECMA-335 decoders for blobs, signatures and the table stream, each against a printer |
| SourceLock | the dependency check of the source lock, a three-coloured depth-first search |
| RecordLayout, LayoutLaws | C layout in 64-bit arithmetic |
| AbiCompare, AbiFacts, AbiMeaning, AbiBuilder, AbiReport | the comparison of measured ABI facts with the inventory |
| JsonDiff, OracleDiff | the recursive comparison of two documents, and of two oracle results in any order |
| Orders, NuGetVersions, NuGetUpdates, OverrideVersions, VersionTexts, VersionOrder, VersionAgreement | the two comparators of versions, the choice of an update, the order that texts of versions tell, and where the two agree |
| Symbols, Disambiguation, NormalForms, Normalization, Inventories | identities, numbering of exact duplicates, stable IDs and order, the inventory as a whole |
| Statuses, PInvoke, Overrides, OverrideMeaning | which imports are emitted as plain calls, and what reviewed overrides can and cannot change |
| Coverage, CoverageMeaning, CoverageWidth, CoverageGate | coverage reports, what they count, their consistency exactly and in 64 bits, and the regression gate |
| Pipeline | numbering, overrides, normalisation and coverage one after the other |
| BitFields | the arithmetic of emitted bit-field accessors |
| Options, Strings, Sequences, Decimal, Sorting, SeqSort, Counts, Arithmetic | shared notions |

Code that changes state is modelled by methods on classes or arrays: `Disks.Disk`,
`CompressedInts.Reader`, `SourceLock.Search`, `AbiBuilder.Builder`, and the methods of
`Disambiguation`, `Normalization` and `Overrides` that change an array of symbols in
place. Each is proved against a function or relation, and what the program promises
is proved about that. AbiMeaning, CoverageMeaning, LayoutLaws, NormalForms,
OverrideMeaning and VersionOrder say what the results are without the functions that
compute them. Runs with failures are stated over the disk's history: a
property "in every state" is about every tree in the part of the history that the
run added.

Iteration over Go maps is an arbitrary choice of a remaining key, so what is proved
holds for every order. Sorting with `sort.Slice` is a stable sort where ties decide
nothing that is claimed, and any order of ties where they might.

## Findings

Where the code does not do what its documentation or the standard says, the model
follows the code, and these members say so exactly.

- Compressed signed integers: the test that makes unsigned integers canonical is
  shared with signed ones. It refuses -8192..-8129 and -2^28..-2^28+8191, which
  section II.23.2 of ECMA-335 allows, and accepts negative numbers in wider forms
  than needed (`CompressedInts.EncodedIntReads`, `ReadIntIsEncoded`,
  `OverlongExample`, `SignedExamples`).
- Method signatures do not record the top flag bit, nor that a generic arity of zero
  was flagged, so such blobs do not print back (`Signatures.ReadMethodIsPrinted`,
  `TopFlagExample`, `ZeroArityExample`).
- An array type whose element has size zero makes the verifier divide by zero
  (`RecordLayout.PanicsExactly`, `CrashesExactly`, `CrashExample`), and rounding up can
  wrap; measured fields without bit-fields get the layout of C exactly when that layout
  ends below 2^64
  (`AlignUpIsLeast`, `DerivesCLayoutExactly`, `WrapExample`).
- Directories made for destinations are not removed when a commit is rolled back. A
  commit that was undone is sure to leave the rest of the tree as it was exactly when
  no target needs its directory made (`Generation.UndoneIsExactWhen`,
  `MadeDirectoryExample`). Every run that got as far as making such a directory has
  left it behind (`WriteGeneration`, `StartedRunIsNotExact`), and one that came to no
  target in need of one has left nothing (`StoppedRunIsExact`). For the slice see
  `SliceWrite.RestIsExactWhen`.
- A signature that already contains the duplicate marker can take another symbol's
  identity; this happens exactly when a symbol alone in its group has the identity a
  numbered one gets (`Disambiguation.CollisionsExactly`, `CollisionExample`).
- The two version comparators disagree on capitals, on a hyphen before digits that fit
  an int and on numeric labels of 2^63 or more, and on nothing else
  (`VersionAgreement.ComparisonsAgreeExactly`).
- Validation adds counts in 64 bits, and the regression gate multiplies them so. A
  report is accepted through a wrap under the condition of
  `CoverageWidth.WrappedIsExactWhen`. The gate is a ratchet for totals and counts by
  status up to 3037000499 and for no larger limit (`CoverageGate.GateIsARatchet`): with
  totals of 3037000500 it misses a fall to nothing (`LargeTotalsHideAFall`), and with
  counts that wrap it fails even for totals of two (`LargeCountsBreakTheRatchet`).

## Model

| member | source | states |
|---|---|---|
| Transaction.Commit | generator/transaction.go:280-338 | For targets whose paths do not contain one another and any pattern of failing operations: either every destination holds its staged product, or it failed and every destination is as it was, except those reported as not restored, whose original is at its own backup path. In every state passed through no original is lost, and nothing outside the jobs changes except directories made on the way to them. It fails only if an operation failed, and retains backups only if an undoing one failed too. It has done nothing but to jobs up to the one that was being worked on, and the directories of all jobs before that one exist at the end. |
| Transaction.Rollback | generator/transaction.go:287-313 | Undoing recorded replacements last first, with any step failing: each job ends undone or is reported as failed, the original of every job stays at its destination or its backup in every state, and products of other jobs are never shown. |
| Transaction.ReplaceOne | generator/transaction.go:314-336 | One replacement ends not started, removed or installed, and says which; in each state on the way the original is at the destination or at the backup. |
| Transaction.UndoOne | generator/transaction.go:289-307 | One undo restores the original or leaves it at its backup path, and touches only the job's own paths. |
| Transaction.StartedStays | generator/transaction.go:317-319 | Once the directory of a destination is there, no work on any job removes it, undoing included. |
| Transaction.AfterRollback | generator/transaction.go:287-313 | A completed rollback meets the promise of all or nothing, job by job. |
| FileTree.MoveEffect | generator/transaction.go:325-336 | After a successful rename the destination holds what the source held and the source is empty. |
| FileTree.MoveKeeps | generator/transaction.go:325-336 | A rename keeps every subtree that shares no path with its source or destination. |
| Disks.Disk.Rename | generator/transaction.go:280-283 | A rename either moves the whole subtree or fails and changes nothing. |
| Disks.Disk.RemoveAll | generator/transaction.go:294-296 | A recursive removal that fails may leave anything at that path and changes nothing elsewhere. |
| Disks.Disk.MkdirAll | generator/transaction.go:317-319 | Making directories adds directories on the way to the given one and changes nothing else, whether or not it fails. |
| Generation.WriteGeneration | generator/transaction.go:29-102 | A whole run that reports success has at every reviewed path, every raw dump, the manifest and the three reports, and at both generated trees if they were staged, exactly what was staged there. It may run exactly when raw dumps are JSON files directly in coverage/raw, the reviewed files are the slice, and each of those places has a staged product of its kind and holds nothing, or something recognised of that kind; it fails only if it may not or an operation failed. Unchanged, every path outside the stage is as it was, targets included, but for new directories above targets: exactly so if no target that was worked on needed its directory made, and not if such a target got its directory. In every state up to the deletion of the stage each original is at its destination or at its backup, and nothing outside targets and stage has changed but for new directories. The manifest is replaced after every other slice file. |
| Generation.Plan | generator/transaction.go:50-93 | A list is made exactly when the run may go ahead, unless an operation failed, and holds exactly the places named above, the manifest behind the other slice files. |
| Generation.TargetsAre | generator/transaction.go:60-93 | A target is in the list if and only if it is a generated tree that was staged, the manifest, a reviewed path, one of the three reports by name, or a raw dump. |
| Generation.ManifestIsBehind | generator/transaction.go:68-79 | No reviewed path stands behind the manifest. |
| Generation.AcceptedExactly | generator/transaction.go:112-156 | The checks accept exactly the runs that may go ahead, said path by path without the list. |
| Generation.StagedTrees | generator/transaction.go:60-67 | The generated trees listed are exactly those that exist in the stage, unless it could not be found out. |
| Generation.TargetsApart | generator/transaction.go:60-93 | No two different targets of a run contain one another, whatever raw dumps there are. |
| Generation.JobsForApart | generator/transaction.go:314-327 | So the destinations, staged products and numbered backups of all targets are pairwise apart, which is what the commit needs. |
| Generation.TargetPathsNoRepeats | generator/transaction.go:60-93 | The list of targets names no path twice. |
| Generation.Preflight | generator/transaction.go:112-156 | Acceptance in both directions: every target has a staged product of the right kind, no existing destination is of another kind or not recognised, and the reviewed paths are as many as the slice has and all of the slice; a list is refused only if one of these fails or an operation failed. |
| Generation.UndoneMeansUnchanged | generator/transaction.go:94-101 | When every original was restored, every path outside the stage is as it was, the targets included, except that directories strictly above targets may be new. |
| Generation.OnlyTargetsChange | generator/transaction.go:314-338 | Work on the targets changes nothing outside targets and stage, except for new directories above targets. |
| Generation.UndoneIsExactWhen | generator/transaction.go:317-319 | A commit that was undone is sure to leave everything outside the stage as it was if and only if no target needs a directory made for it: its parent exists, or a file is in the way. |
| Generation.UndoneIsExact | generator/transaction.go:317-319 | The direction that such a commit is exact when no target needs a directory. |
| Generation.MadeDirectoryStays | generator/transaction.go:317-319 | For any target that needs a directory, the directory may be left behind by a commit that undid everything. |
| Generation.MadeDirectoryExample | generator/transaction.go:317-319 | The smallest tree for which that may happen: one staged report and no directory for reports. |
| Generation.StoppedRunIsExact | generator/transaction.go:317-319 | A failed commit that restored every original has left everything outside the stage as it was if none of the targets it had touched needed a directory. |
| Generation.StartedRunIsNotExact | generator/transaction.go:317-319 | However a commit ends, once it has made the directory that a target needed, the tree outside the stage differs from before. |
| Generation.StageMayGo | generator/transaction.go:34-39 | Deleting the stage after such a failure loses no original. |
| SliceWrite.WriteSlice | generator/internal/slice/write.go:15-105 | The slice is completely written, or unchanged, or its backups are retained. It is written unless an operation failed or the files are refused, and nothing is touched unless they are accepted: exactly the paths of the slice, none of them over anything but a recognised file. In every state before the stage is deleted no original is lost, and at the end as in between nothing outside the slice and the stage has changed but for new directories above them. If the manifest on disk was not the new one, then in every state passed through, rollback included, a new manifest at its destination implies that every artifact has its new content. |
| SliceWrite.CheckDestinations | generator/internal/slice/write.go:108-145 | The destinations pass exactly when each is missing or a recognised file, unless an operation failed. |
| SliceWrite.RestIsExactWhen | generator/internal/slice/write.go:28-105 | What the writer promises of the rest of the tree means that it is exactly as it was if and only if neither the stage nor a file of the slice needs a directory made. |
| SliceWrite.Write | generator/internal/slice/write.go:50-105 | The replacement loop alone: all files new, or all as before, or some not restored with nothing lost; the manifest last in every state. |
| SliceWrite.ManifestLastDuring | generator/internal/slice/write.go:77-105 | Working on one file keeps the order: the manifest is not touched before the last file. |
| SliceWrite.ManifestLastWhileUndoing | generator/internal/slice/write.go:56-76 | While a rollback runs the new manifest is not at its destination. |
| SliceWrite.JobsForApart | generator/internal/slice/write.go:38-47 | Slice files, their staged copies and their backups are pairwise apart. |
| SlicePaths.ManifestToEnd | generator/internal/slice/write.go:19-26 | The reordering is a permutation: the other files in their order, then the manifest. |
| SlicePaths.AllSliceFiles | generator/internal/slice/write.go:110-119 | As many distinct allowed paths as there are allowed paths are all of them. |
| SlicePaths.HowManySliceFiles | generator/internal/slice/write.go:110-119 | The allowed paths, listed once each, pass the test of the count. |
| SlicePaths.SliceOrder | generator/transaction.go:68-75 | The generator replaces slice files in the listed order without the manifest. |
| CompressedInts.EncodedUintReads | generator/internal/ecma335/ecma335.go:43-75 | Reading the shortest encoding (section II.23.2 of ECMA-335) of any value up to 0x1FFFFFFF gives the value and consumes exactly its bytes. |
| CompressedInts.ReadUintIsEncoded | generator/internal/ecma335/ecma335.go:43-75 | Whatever is accepted is the shortest encoding of the value read. |
| CompressedInts.EncodeUintIsShortest | generator/internal/ecma335/ecma335.go:43-75 | Of all byte strings that denote a value, the one taken as its encoding is the only shortest. |
| CompressedInts.EncodedIntReads | generator/internal/ecma335/ecma335.go:77-98 | Reading the standard encoding of a signed value gives the value, except for -8192..-8129 and -2^28..-2^28+8191, which are refused. |
| CompressedInts.ReadIntIsEncoded | generator/internal/ecma335/ecma335.go:77-98 | Whatever is accepted is the rotated two's complement form of the value in one of the three widths, and it is the standard encoding exactly when the value is not a negative one given a wider form than it needs. |
| CompressedInts.OverlongExample | generator/internal/ecma335/ecma335.go:77-98 | Minus one is accepted in two bytes although one suffices: the accepted set deviates from section II.23.2. |
| CompressedInts.UnsignedExamples | generator/internal/ecma335/ecma335.go:43-75 | The examples of section II.23.2 for unsigned integers are read as it says. |
| CompressedInts.SignedExamples | generator/internal/ecma335/ecma335.go:77-98 | So are those for signed ones, but for -8192 and -2^28, which are refused. |
| CompressedInts.SignExtension1 | generator/internal/ecma335/ecma335.go:84-96 | Or-ing in the high bits, as the code does in one byte, equals the arithmetic sign extension used by the model. |
| CompressedInts.SignExtension2 | generator/internal/ecma335/ecma335.go:84-96 | The same for two bytes. |
| CompressedInts.SignExtension4 | generator/internal/ecma335/ecma335.go:84-96 | The same for four bytes. |
| CompressedInts.Reader.ReadUint | generator/internal/ecma335/ecma335.go:43-75 | The method over the cursor agrees with the specification of reading, and the cursor never leaves the data. |
| CompressedInts.Reader.ReadInt | generator/internal/ecma335/ecma335.go:77-98 | The same for signed values. |
| CompressedInts.Reader.ReadBytes | generator/internal/ecma335/ecma335.go:32-41 | A slice is given exactly when it lies inside the data; otherwise the cursor does not move. |
| Signatures.PrintedTypeReads | generator/internal/ecma335/ecma335.go:273-341 | Reading a printed type (sections II.23.2.12 and II.23.2.13) returns the same tree and exactly its bytes, unless an array bound is one the integers refuse. |
| Signatures.ReadTypeIsPrinted | generator/internal/ecma335/ecma335.go:273-341 | A type that is read is expressible in the grammar, and the bytes were its printed form if and only if no array bound in them takes more bytes than it needs. |
| Signatures.PrintedFieldReads | generator/internal/ecma335/ecma335.go:254-271 | Reading a printed field signature (section II.23.2.4) returns the same tree, or an error exactly when a bound is refused. |
| Signatures.ReadFieldIsPrinted | generator/internal/ecma335/ecma335.go:254-271 | A field signature that is read is byte for byte what is printed if and only if no array bound in it takes more bytes than it needs. |
| Signatures.OverlongFieldExample | generator/internal/ecma335/ecma335.go:254-271 | With a negative lower bound two different blobs can give the same field signature. |
| Signatures.PrintedMethodReads | generator/internal/ecma335/ecma335.go:213-252 | Reading a printed method signature returns the same signature, or an error exactly when a bound is refused. |
| Signatures.ReadMethodIsPrinted | generator/internal/ecma335/ecma335.go:213-252 | A method signature that is read is what is printed if and only if its top flag is clear, a flagged generic arity is not zero, and no array bound takes more bytes than it needs. |
| Signatures.TopFlagExample | generator/internal/ecma335/ecma335.go:213-252 | Two blobs that differ in the top flag give the same signature. |
| Signatures.ZeroArityExample | generator/internal/ecma335/ecma335.go:213-252 | A flagged generic arity of zero gives the same signature as none. |
| Signatures.ParseType | generator/internal/ecma335/ecma335.go:273-341 | The recursive reader terminates on the bytes remaining, agrees with the specification of reading at every offset and never moves past the end. |
| Signatures.ElementBytes | generator/internal/ecma335/ecma335.go:273-341 | Which bytes stand for which elements, what follows each, and that no others are read. |
| Signatures.FirstBytes | generator/internal/ecma335/ecma335.go:213-271 | A field signature starts with 6; the first byte of a method signature holds the convention, at most 5, and the flags for this, explicit this and generic arity. |
| Signatures.ArrayExample | generator/internal/ecma335/ecma335.go:295-337 | A two-dimensional array with one size and one lower bound, byte by byte. |
| Signatures.MethodExample | generator/internal/ecma335/ecma335.go:213-252 | An instance method of one parameter, byte by byte. |
| Signatures.ParseShape | generator/internal/ecma335/ecma335.go:307-337 | The same for array shapes, counts checked against the bytes that remain. |
| Signatures.ParseFieldSignature | generator/internal/ecma335/ecma335.go:254-271 | The method computes the specification of a field signature. |
| Signatures.ParseMethodSignature | generator/internal/ecma335/ecma335.go:213-252 | The method computes the specification of a method signature. |
| TableStream.PrintedHeaderReads | generator/internal/ecma335/ecma335.go:413-432 | Reading a printed table-stream header (section II.24.2.6) gives the header back, row counts included, whatever follows it. |
| TableStream.ReadHeaderPrints | generator/internal/ecma335/ecma335.go:413-432 | Every header that is read has row counts for exactly the tables present and survives printing. |
| TableStream.RowsOfPresentTables | generator/internal/ecma335/ecma335.go:420-430 | A table has a row count exactly when its bit is set, read after those of the tables below it. |
| TableStream.ParseHeader | generator/internal/ecma335/ecma335.go:413-432 | The loop computes the specification and fails exactly when a count is cut off. |
| TableStream.CodedIndexIsEncoded | generator/internal/ecma335/ecma335.go:143-162 | A coded index decodes to a row of a table if and only if it is the encoding of a tag for that table and that row. |
| TableStream.TagRanges | generator/internal/ecma335/ecma335.go:143-162 | Tags of zero to five bits select among powers of two; six are refused. |
| TableStream.HeaderBytes | generator/internal/ecma335/ecma335.go:413-432 | Where the parts of the header are and which bit stands for which table. |
| TableStream.RowBytes | generator/internal/ecma335/ecma335.go:420-430 | A row count is the little-endian word behind those of the present tables below it. |
| SourceLock.CheckAcyclic | generator/internal/source/source.go:163-188 | Visiting the nodes in any order accepts if and only if the graph of dependencies without slashes has no cycle, and then every node finished after all its dependencies. |
| SourceLock.Search.Visit | generator/internal/source/source.go:165-182 | The three-coloured search terminates, keeps colours, stack and finished list consistent, and on refusal there is a cycle. |
| SourceLock.TopologicalMeansAcyclic | generator/internal/source/source.go:163-188 | A list of all nodes with dependencies first rules out cycles. |
| SourceLock.StackClosesCycle | generator/internal/source/source.go:166-168 | An edge back to a node being visited closes a cycle. |
| SourceLock.CheckSources | generator/internal/source/source.go:96-153 | The sources are accepted exactly when each is well formed and no ID repeats. |
| SourceLock.ValidateLock | generator/internal/source/source.go:89-189 | The whole check accepts exactly when the schema is 1, there are sources, each is well formed, IDs are unique, dependencies are known and acyclic. |
| RecordLayout.DerivesCLayout | generator/internal/verify/compare.go:383-403 | Derived offsets are the layout of C, each field at the least multiple of its effective alignment at or after the end of the one before, if and only if no rounding wraps 2^64. |
| RecordLayout.DerivesCLayoutExactly | generator/internal/verify/compare.go:383-403 | For any fields and pack: the offsets are derived and are the layout of C if and only if there is no bit-field, every type is measured with a positive alignment, and the end of the exact layout, with integers of any size, is below 2^64. They are then the offsets of that layout. |
| RecordLayout.DerivedIsRounded | generator/internal/verify/compare.go:363-403 | Derived offsets are always the rounding of the previous end in 64-bit arithmetic. |
| RecordLayout.CLayoutIsDisjoint | generator/internal/verify/compare.go:383-403 | In such a layout fields are in order and do not overlap. |
| RecordLayout.CLayoutIsUnique | generator/internal/verify/compare.go:383-403 | There is only one such layout. |
| RecordLayout.AlignUpIsLeast | generator/internal/verify/compare.go:451-460 | Rounding up gives the least multiple at or after the value if and only if it does not wrap. |
| RecordLayout.WrapExample | generator/internal/verify/compare.go:451-460 | A record whose rounding wraps is given an offset before the end of the previous field. |
| RecordLayout.CrashesExactly | generator/internal/verify/compare.go:363-403 | Deriving offsets divides by zero if and only if some field is reached, no bit-field among the fields up to it, whose type has an array element of size zero. |
| RecordLayout.CrashExample | generator/internal/verify/compare.go:405-413 | One field, an array of length one of a type of size zero, divides by zero. |
| RecordLayout.RecordDividesExactly | generator/internal/verify/compare.go:363-403 | A record divides by zero exactly when its offsets are not given, it is a struct, and that holds of its fields. |
| RecordLayout.PanicsExactly | generator/internal/verify/compare.go:405-413 | Measuring a type divides by zero exactly when it is an array whose measured element, or one inside it, has size zero. |
| RecordLayout.TypeLayoutIsWord | generator/internal/verify/compare.go:405-438 | Measured sizes and alignments fit 64 bits. |
| RecordLayout.ByNameHas | generator/internal/verify/compare.go:383-403 | With distinct field names, each name is given its own offset. |
| RecordLayout.RecordOffsets | generator/internal/verify/compare.go:363-403 | The method computes the specification: explicit offsets, zeros for a union, derived ones for a struct. |
| RecordLayout.DeriveOffsets | generator/internal/verify/compare.go:383-403 | The loop stops exactly where the specification does. |
| LayoutLaws.AddressesMeasure | generator/internal/verify/compare.go:405-449 | Pointers, function pointers, handles and opaque types measure four bytes exactly on 386 and eight on amd64, arm64 and arm64ec; nothing is known elsewhere. |
| LayoutLaws.ArraysMeasure | generator/internal/verify/compare.go:409-415 | An array measures its element times its length, aligned as the element, exactly when the element has a size and the product is below 2^64. |
| LayoutLaws.GivenLayoutsMeasure | generator/internal/verify/compare.go:336-348 | A given layout says size and alignment: the first for the architecture, and the first neutral one only when there is none. |
| LayoutLaws.NamesMeasure | generator/internal/verify/compare.go:419-438 | Types without a layout measure one, two, four or eight bytes by their Go name, or as an address, or else by their bits. |
| LayoutLaws.StructLayoutIsDerived | generator/internal/verify/compare.go:383-403 | Offsets that follow the rule of C, with the smaller of alignment and packing, are derived exactly when the last field ends below 2^64. |
| LayoutLaws.DerivedIsMeasured | generator/internal/verify/compare.go:383-403 | Nothing is derived with a bit-field or a field of unknown size or alignment. |
| LayoutLaws.OffsetsMean | generator/internal/verify/compare.go:363-382 | Given offsets are taken under the name of the entry and of the field it stands for, the last for a name counting; in a union every field starts at zero; nothing but a struct is laid out. |
| LayoutLaws.StructOffsetsMean | generator/internal/verify/compare.go:383-403 | Each field of a struct is given the offset that the rule of C says. |
| LayoutLaws.FirstFieldIsFound | generator/internal/verify/compare.go:350-361 | A field is found by its native name or its own, the first that has it. |
| LayoutLaws.UnicodeStringExample | generator/internal/verify/compare.go:383-449 | Two 16-bit lengths and a pointer start at 0, 2 and 4 on 386 and at 0, 2 and 8 on amd64 and arm64. |
| LayoutLaws.PackedExample | generator/internal/verify/compare.go:392-394 | Packed to one byte, a byte and a 32-bit number start at 0 and 1. |
| AbiCompare.FindSymbolIsBest | generator/internal/verify/compare.go:281-324 | A symbol is found whenever there is a candidate, and no candidate has a better architecture or, with the same, a lower ID. |
| AbiCompare.SearchSymbol | generator/internal/verify/compare.go:281-324 | The loop finds that symbol. |
| AbiMeaning.BestIsFound | generator/internal/verify/compare.go:281-324 | A symbol is found if and only if it has the name, the kind and a fitting architecture, and goes before all others that do: the exact architecture first, then the lower ID, then the earlier place. |
| AbiCompare.Conservation | generator/internal/verify/compare.go:227-279 | For every sequence of decisions: matched facts of all symbols, unmatched facts and mismatched facts of all symbols are together exactly the facts decided, each as often; and the mismatched ones are as many as are counted. |
| AbiCompare.FileAccounts | generator/internal/verify/compare.go:240-271 | Filing one decision accounts for its fact once. |
| AbiFacts.CountedParts | generator/internal/verify/compare.go:258-271 | Of all facts only a difference of kind ends in ".kind" and is left out of the count. |
| AbiFacts.RecordIsFiled | generator/internal/verify/compare.go:68-110 | Comparing a record decides its size, its alignment and every field offset, once each, whichever way the comparison goes. |
| AbiFacts.BitFieldIsFiled | generator/internal/verify/compare.go:149-176 | Comparing a bit-field decides its three facts once each. |
| AbiFacts.FunctionIsFiled | generator/internal/verify/compare.go:178-208 | Comparing a function decides its two facts once each. |
| AbiFacts.SmallItemIsFiled | generator/internal/verify/compare.go:112-147 | Comparing a constant, a GUID, a table slot or a condition decides its one fact. |
| AbiFacts.AllIsFiled | generator/internal/verify/compare.go:38-58 | So the decisions of a whole run concern exactly the facts measured, each as often as it was measured. |
| AbiFacts.AllIsFruitful | generator/internal/verify/compare.go:227-238 | Every symbol that is looked up is given a fact. |
| AbiFacts.EverySymbolHolds | generator/internal/verify/compare.go:59-62 | So no symbol is reported without facts. |
| AbiBuilder.Builder.FileMatched | generator/internal/verify/compare.go:240-242 | A matched fact is added to its symbol; the tally stays that of the decisions so far. |
| AbiBuilder.Builder.FileUnmatched | generator/internal/verify/compare.go:244-250 | An unmatched fact is listed, and under its symbol if there is one. |
| AbiBuilder.Builder.FileMismatch | generator/internal/verify/compare.go:258-271 | A mismatch is listed; unless it is one of kind it is counted and added to its symbol. |
| AbiBuilder.Builder.CompareRecord | generator/internal/verify/compare.go:68-110 | The method makes exactly the decisions specified for a record, or stops when an offset divides by zero. |
| AbiBuilder.Builder.CompareConstant | generator/internal/verify/compare.go:112-131 | The method makes exactly the decision specified for a constant. |
| AbiBuilder.Builder.CompareGuid | generator/internal/verify/compare.go:133-147 | The method makes exactly the decision specified for a GUID. |
| AbiBuilder.Builder.CompareBitField | generator/internal/verify/compare.go:149-176 | The method makes exactly the decisions specified for a bit-field. |
| AbiBuilder.Builder.CompareFunction | generator/internal/verify/compare.go:178-208 | The method makes exactly the decisions specified for a function. |
| AbiBuilder.Builder.CompareVTable | generator/internal/verify/compare.go:210-225 | The method makes exactly the decision specified for a table slot. |
| AbiBuilder.ComputeBitMask | generator/internal/verify/compare.go:469-478 | The mask has exactly the bits from the offset on, as many as the width, and is refused when it does not fit. |
| AbiReport.CompareInventory | generator/internal/verify/compare.go:28-66 | For every inventory and measurement: stops exactly when a record divides by zero. Otherwise there is a line for exactly the symbols that something is compared with; a fact is listed there as matched if and only if some measurement has it, the best symbol of its name is this one and holds an equal value, as mismatched if and only if both are known and differ, and as unmatched if and only if the value is not known of the symbol. Every mismatch shows what was measured and what the symbol holds. Each fact measured is filed once, and a complete symbol has matched facts and no others. |
| AbiReport.CompleteMeansAgreed | generator/internal/verify/compare.go:60-64 | A symbol reported complete agrees with every fact of every measurement compared with it. |
| AbiMeaning.ItemFollows | generator/internal/verify/compare.go:68-256 | Whatever is measured, every one of its facts is decided, with the verdict that measurement and best symbol give, and nothing else is. |
| AbiMeaning.ListsTellTheTruth | generator/internal/verify/compare.go:240-279 | After all measurements the lists of a symbol hold exactly the facts that agree, differ and are not known, size, alignment, offset, constant, GUID, mask, bit offset, bit width, table index, convention and type alike. |
| AbiMeaning.MismatchesShowTheTruth | generator/internal/verify/compare.go:258-279 | Every mismatch listed is a fact that differs, with both sides and the right code, or a record of another kind than its symbol. |
| AbiMeaning.FactsOf | generator/internal/verify/compare.go:68-256 | Which facts a measurement holds. |
| AbiMeaning.FactNames | generator/internal/verify/compare.go:68-256 | What the facts are called. |
| AbiMeaning.ItemsAre | generator/internal/verify/compare.go:39-59 | All seven lists of measurements are compared, and nothing else. |
| AbiReport.ComparisonShowsDecisions | generator/internal/verify/compare.go:28-66 | The comparison shows as matched and mismatched exactly the facts that were decided so, and lists the unmatched facts and the mismatches in the order of the decisions. |
| AbiReport.ReportShowsAll | generator/internal/verify/compare.go:59-64 | The sorted report shows every fact that was filed, whatever order the symbols come out of their map. |
| AbiReport.ConservedCounts | generator/internal/verify/verify.go:184-198 | The three counts of a comparison add up to the number of facts. |
| AbiReport.FactCount | generator/internal/verify/model.go:599-607 | The count taken from list lengths is the number of facts. |
| AbiReport.Run | generator/internal/verify/verify.go:778-783 | The four counts are the sums of those of the comparisons of all architectures, and matched, unmatched and mismatched add up to the facts; a run stops exactly when a record of some architecture divides by zero. |
| AbiReport.TotalsAreSums | generator/internal/verify/verify.go:778-783 | The four totals of a list of architectures are nothing for none, those of the comparison for one, and add up when lists are put together. |
| JsonDiff.NoMismatchMeansAlike | tools/abi-oracle/internal/oracle/compare.go:177-221 | No mismatch is found if and only if the documents are equal once null members and trailing null elements are removed at every depth. |
| JsonDiff.ReportsEveryDivergence | tools/abi-oracle/internal/oracle/compare.go:177-221 | A mismatch is reported for exactly the places where the documents agree in kind all the way and then differ, and shows what each holds there. |
| JsonDiff.SwappingMirrors | tools/abi-oracle/internal/oracle/compare.go:177-221 | Exchanging the documents gives the same mismatches in the same order with expected and actual exchanged. |
| JsonDiff.CompareValue | tools/abi-oracle/internal/oracle/compare.go:177-221 | The recursive method appends exactly the specified mismatches. |
| JsonDiff.Compare | tools/abi-oracle/internal/oracle/compare.go:156-175 | Two documents are called equal exactly when they mean the same. |
| OracleDiff.CompareResults | tools/abi-oracle/internal/oracle/compare.go:156-175 | Two results are compared after sorting: equal exactly when the sorted documents mean the same. |
| OracleDiff.OrderIsForgotten | tools/abi-oracle/internal/oracle/compare.go:234-254 | With distinct IDs, results that differ only in the order of their seven lists and of the fields in records compare equal, and compare alike with any third. |
| OracleDiff.EqualExactly | tools/abi-oracle/internal/oracle/compare.go:156-175 | For results whose items show their IDs, each once in its list: they compare equal if and only if their headers agree and each of the seven lists, with the fields of records, holds the same items, nulls and order aside. |
| Sorting.AscendingIsSorted | tools/abi-oracle/internal/oracle/compare.go:187-191 | Ascending order determines the list of keys, so the order a map gives them leaves no trace. |
| Sorting.Sort | tools/abi-oracle/internal/oracle/compare.go:187-191 | Keys collected in any order end up in that list. |
| NuGetVersions.PrintedVersionReads | generator/internal/source/updates.go:104-136 | Every well-formed version reads back from its printed text. |
| NuGetVersions.ParseVersion | generator/internal/source/updates.go:104-136 | The method computes the specification of parsing, refusing exactly what it refuses. |
| NuGetVersions.SplitLowered | generator/internal/source/updates.go:117-121 | Lowering the labels together or one by one is the same. |
| NuGetUpdates.NumericLabelsCompareAsNumbers | generator/internal/source/updates.go:178-195 | Comparing digit strings without leading zeros by length and then by characters is comparing the unbounded numbers they denote. |
| NuGetUpdates.LabelsArePreordered | generator/internal/source/updates.go:178-196 | The comparison of labels is a total preorder. |
| NuGetUpdates.PrecedenceIsPreorder | generator/internal/source/updates.go:164-199 | The comparison of versions is reflexive, antisymmetric in sign, transitive and total. |
| NuGetUpdates.CompareVersions | generator/internal/source/updates.go:164-199 | The loops over numbers and labels compute that comparison. |
| NuGetUpdates.SelectUpdate | generator/internal/source/updates.go:69-93 | The selection fails exactly on an empty list, a bad pin or a bad version; otherwise the result is never below the pin, never leaves the stable channel, is not exceeded by any eligible version, and is the first such. |
| NuGetUpdates.OneMoreVersion | generator/internal/source/updates.go:80-91 | One step keeps the best version so far the best. |
| VersionTexts.EveryTextIsWritten | generator/internal/source/updates.go:104-136 | Every text is numbers between dots, labels after a hyphen and metadata after a plus sign, put together. |
| VersionTexts.OnlyWrittenOnce | generator/internal/source/updates.go:104-136 | And it determines these parts. |
| VersionOrder.NuGetReads | generator/internal/source/updates.go:104-162 | NuGet reads exactly the texts of at most 1024 characters with one to four numbers below 2^31 and with labels of letters, digits and hyphens; and of them the numbers and the lowered labels. |
| VersionOrder.NuGetOrder | generator/internal/source/updates.go:164-199 | Of any two versions NuGet reads, one is lower if and only if its text says so: by the first number that differs; with the same numbers, by having labels where the other has none; and else by the first label that differs or is missing, numbers by value and below all other labels, these by characters without case. |
| VersionOrder.ReleaseIsHigher | generator/internal/source/updates.go:170-178 | For both comparators, a version with labels is below the one with the same numbers and none. |
| VersionOrder.NumbersDecide | generator/internal/source/updates.go:165-169 | For both, the first number that differs decides, whatever the labels. |
| VersionOrder.MoreLabelsAreHigher | generator/internal/source/updates.go:179-198 | For both, more labels after the same ones are higher. |
| VersionOrder.SelectedIsHighest | generator/internal/source/updates.go:69-93 | The version selected is the pin or a higher one from the list; it has no labels if the pin has none; and nothing in the list, of those without labels if the pin has none, is higher. |
| VersionOrder.ReleaseIsTaken | generator/internal/source/updates.go:69-93 | A pin with labels is never kept when its release is in the list. |
| VersionOrder.PreviewExample | generator/internal/source/updates.go:170-178 | 71.0.26-preview is below 71.0.26, for both comparators. |
| Orders.RankedIsPreorder | generator/internal/source/updates.go:164-199 | Numbers first, then labels, with no labels highest, is a total preorder whenever labels are totally preordered. |
| Decimal.SameLengthOrder | generator/internal/source/updates.go:187-195 | Digit strings of one length compare as the numbers they denote. |
| Decimal.ShorterIsLess | generator/internal/source/updates.go:187-190 | A shorter digit string denotes a smaller number than a longer one without leading zeros. |
| OverrideVersions.PrecedenceIsPreorder | generator/internal/metadata/override.go:220-318 | The second comparator is a total preorder of versions of any length. |
| OverrideVersions.LabelsArePreordered | generator/internal/metadata/override.go:290-309 | Labels that are ints lie below all others, and the comparison of labels is a total preorder. |
| OverrideVersions.PaddingIsFree | generator/internal/metadata/override.go:262-280 | Filling up with zeros to any common length does not change the comparison of numbers. |
| OverrideVersions.CompareVersions | generator/internal/metadata/override.go:220-318 | The loops compute that comparison, and fail exactly when a version does not parse. |
| OverrideVersions.ParseVersion | generator/internal/metadata/override.go:225-253 | The method computes the specification of parsing. |
| OverrideVersions.VersionInRange | generator/internal/metadata/override.go:208-218 | A version is in range exactly when it is between the bounds; an error when anything does not parse. |
| OverrideVersions.RangeIsInterval | generator/internal/metadata/override.go:208-218 | What lies between two versions of a range is in the range. |
| OverrideVersions.RangeHoldsItsBounds | generator/internal/metadata/override.go:100-102 | A range that is not reversed contains its bounds, a reversed one contains nothing. |
| VersionOrder.OverrideReads | generator/internal/metadata/override.go:225-253 | The second comparator reads exactly the texts with numbers below 2^63 and labels that are not empty. |
| VersionOrder.OverrideOrder | generator/internal/metadata/override.go:262-318 | It orders texts likewise, but for its labels: those that are 64-bit ints by value and below all others, these by characters. |
| VersionOrder.RangeMeans | generator/internal/metadata/override.go:208-218 | A version is in a range if and only if its text is not below that of the one bound, nor that of the other bound below it. |
| VersionAgreement.ComparisonsAgreeExactly | generator/internal/metadata/override.go:220-318 | A version that NuGet accepts is put alike by both comparators among all versions with plain labels if and only if its own labels are plain: lower-case, below 2^63 when numeric, and no hyphen with digits that is read as an int. |
| VersionAgreement.ComparisonsAgree | generator/internal/metadata/override.go:220-318 | On any two versions with plain labels both comparators give the same sign. |
| VersionAgreement.CounterpartDisagrees | generator/internal/metadata/override.go:290-309 | For a label that is not plain there is a version with plain labels, no longer than the given one, on which the comparators disagree. |
| VersionAgreement.CapitalsDisagree | generator/internal/metadata/override.go:305-309 | The versions 1-B and 1-a are put in opposite orders. |
| VersionAgreement.HyphensDisagree | generator/internal/metadata/override.go:291-298 | Every version 1-n with n a negative int is above 1-1 for one comparator and below it for the other. |
| VersionAgreement.LargeNumbersDisagree | generator/internal/metadata/override.go:291-304 | Every version 1-n with n of 2^63 or more is below 1-- for one comparator and above it for the other. |
| Disambiguation.Disambiguate | generator/pipeline.go:202-234 | In place and with the groups in any order: exact duplicates are numbered within their group in the order of their metadata rows, the number is appended to the signature and recorded, and everything else is unchanged. |
| Disambiguation.CollisionsExactly | generator/pipeline.go:202-234 | If no part has a NUL, two symbols share an identity afterwards if and only if some symbol that is alone in its group already has the identity that a member of a larger group gets with one of its numbers. |
| Disambiguation.IdentitiesAreDistinct | generator/pipeline.go:202-234 | So no two symbols share an identity when no signature contains the marker. |
| Disambiguation.EveryNumberIsGiven | generator/pipeline.go:228-233 | In a group every number below its size is given to a symbol. |
| Disambiguation.NumberingMeans | generator/pipeline.go:202-234 | A symbol alone with its identity stays as it is. Of several, each gets a number of its own below their count, the lower the earlier its first provenance by table and row, appended to the signature behind #upstream-duplicate= and recorded with the count. |
| Disambiguation.BothMarked | generator/pipeline.go:229-229 | Two numbered symbols have the same identity only if they had it before and got the same number. |
| Disambiguation.MarkedInputCollides | generator/pipeline.go:229-229 | If a signature already looks marked, two symbols can end up with one identity. |
| Disambiguation.CollisionExample | generator/pipeline.go:202-234 | Three symbols, two of which differ only in their rows while the signature of the third looks marked, and the numbering in which the first and the third get one identity. |
| Disambiguation.MarkedSignatures | generator/pipeline.go:229-229 | A marked signature determines the signature and the number it was made from, whatever the signature. |
| Disambiguation.GroupByKey | generator/pipeline.go:203-207 | The groups are exactly the index lists of equal keys. |
| Disambiguation.SortByRow | generator/pipeline.go:212-227 | A group is sorted by metadata table and row. |
| Disambiguation.MarkGroup | generator/pipeline.go:228-233 | The symbols of a group are numbered in that order and no others change. |
| Symbols.KeyTextIsInjective | generator/internal/normalize/normalize.go:15-32 | Without NULs, texts joined by NULs are equal exactly when their parts are. |
| Symbols.SameKeySameIdentity | generator/internal/normalize/normalize.go:15-32 | Equal parts mean equal identities, the generic arity included. |
| Normalization.NumberedNeverCollide | generator/internal/normalize/normalize.go:34-52 | After disambiguation, with trimmed names without NULs, signatures and a hash that never collides, every symbol has an ID of its own if and only if none had taken the identity of a numbered one before. |
| Normalization.NormalizationIsIdempotent | generator/internal/normalize/normalize.go:34-88 | Normalising a normalised inventory succeeds and changes nothing. |
| Normalization.IngestionOrderIsForgotten | generator/internal/normalize/normalize.go:34-88 | Inventories with the same symbols in another order are accepted alike and normalise to the same list. |
| Normalization.ProvenanceOrderIsForgotten | generator/internal/normalize/normalize.go:53-65 | The order of a symbol's provenance makes no difference when its entries differ in what they are sorted by. |
| Normalization.Normalize | generator/internal/normalize/normalize.go:37-68 | In place: succeeds exactly when the symbols have normal forms that name everything an ID is made of and have IDs of their own; and then holds the normal form of each, once, by ascending IDs. A normal form has the names without surrounding white space, the signature that was given or else kind and full name, the ID of its identity, the same provenance by source, file, table and row, and all else as it was. Otherwise it stops at the first offender. |
| Normalization.ResultIsNormal | generator/internal/normalize/normalize.go:37-68 | The result is a permutation of the normal forms, in strictly ascending order of their IDs. |
| Normalization.AcceptedExactly | generator/internal/normalize/normalize.go:45-51 | Symbols are accepted exactly when such normal forms exist. |
| Inventories.Inventory.Normalize | generator/internal/normalize/normalize.go:34-89 | In place, for the whole inventory: succeeds exactly when the symbols do; and then holds their normal forms, the same sources by ascending IDs, the same diagnostics by source, symbol, code and message, and the hash of all this. On failure sources, diagnostics and hash are as before. |
| Inventories.InputOrderIsForgotten | generator/internal/normalize/normalize.go:34-89 | Inventories with the same sources, symbols, provenances and diagnostics in any other order, no two of which share what they are sorted by, normalise alike, down to the manifest hash. |
| Inventories.NormalizationIsIdempotent | generator/internal/normalize/normalize.go:34-89 | Normalising a normalised inventory succeeds and keeps everything, the hash included. |
| SeqSort.SortForgetsOrder | generator/internal/normalize/normalize.go:53-68 | Sorting by keys that tell elements apart depends on the elements only. |
| Coverage.BuiltReportsAreConsistent | generator/internal/coverage/coverage.go:136-208 | In exact arithmetic a built report is consistent if and only if the inventory names its generator and a 64-digit hash, has symbols, and no counted symbol has an unknown status. |
| CoverageWidth.BuiltReportsPass | generator/internal/coverage/coverage.go:136-208 | So in the 64 bits of the program a built report passes validation under the same condition, when the lists it was built from are short enough to be counted. |
| Coverage.Build | generator/internal/coverage/coverage.go:56-122 | The counting loop computes the specified report. |
| Coverage.BuiltPartitions | generator/internal/coverage/coverage.go:155-184 | The maps by source, namespace, kind, backend and status each add up to the total, architectures cover it, skip reasons count exactly the symbols not generated. |
| Coverage.BuiltRanges | generator/internal/coverage/coverage.go:172-180 | Verified and unverified partition the total, and callable bridges are verified bridges. |
| Coverage.StatusCounts | generator/internal/coverage/coverage.go:83-104 | The counters kept beside the map by status agree with it. |
| Coverage.NothingLeftOut | generator/internal/coverage/coverage.go:71-75 | Every ingested symbol is counted or listed as excluded. |
| CoverageMeaning.TotalMeans | generator/internal/coverage/coverage.go:56-75 | The total is the number of symbols that count: all but the fixtures if any symbol is none, else all; and the scope says which. |
| CoverageMeaning.MapsMean | generator/internal/coverage/coverage.go:76-79 | The counts by source, namespace and kind are those of the symbols that count and have them. |
| CoverageMeaning.StatusesMean | generator/internal/coverage/coverage.go:71-89 | So are the counts by backend and status; excluded by source are the fixtures that do not count. |
| CoverageMeaning.ArchitecturesMean | generator/internal/coverage/coverage.go:80-87 | A symbol counts once for every architecture it is available on, or else under its own. |
| CoverageMeaning.ReasonsMean | generator/internal/coverage/coverage.go:108-110 | Skip reasons count the symbols whose status is not spelled as a generated one. |
| CoverageMeaning.FlagsMean | generator/internal/coverage/coverage.go:102-121 | The other counts are those of the symbols that are verified, tested, overridden and callable through a bridge. |
| CoverageMeaning.MetricsMean | generator/internal/coverage/coverage.go:121-133 | Every metric is the share of the symbols it is about in the total, in percent to two places. |
| CoverageMeaning.ChangedCountsAreRefused | generator/internal/coverage/coverage.go:136-218 | Two reports accepted in 64 bits with one total never differ in a single count by source, namespace, kind, backend or status, nor in one by skip reason. |
| CoverageMeaning.ChangedTotalsAreRefused | generator/internal/coverage/coverage.go:136-208 | Nor in a total without the metrics, or in the metrics alone. |
| CoverageMeaning.ConsistentHasHead | generator/internal/coverage/coverage.go:136-154 | An accepted report has version 1, a known scope, a generator, a hash of 64 hexadecimal digits and symbols. |
| CoverageMeaning.ConsistentRanges | generator/internal/coverage/coverage.go:136-208 | Verified and unverified add up to the total, tested and overridden are within it, callable bridges are verified bridges, statuses are known and no count is negative. |
| Coverage.Validate | generator/internal/coverage/coverage.go:136-208 | Validation accepts exactly the reports, built or read back, that are consistent in 64-bit arithmetic. |
| CoverageWidth.WrappedIsExactWhen | generator/internal/coverage/coverage.go:136-218 | An accepted report is exactly consistent if and only if no sum of its maps left 64 bits; an exactly consistent report is accepted if and only if its count of architectures does not wrap below the total. |
| CoverageWidth.NoWrapNoDifference | generator/internal/coverage/coverage.go:136-218 | When no sum leaves 64 bits, the accepted reports are exactly the consistent ones. |
| CoverageWidth.RangesWidth | generator/internal/coverage/coverage.go:172-174 | Verified and unverified cannot wrap to a positive total. |
| CoverageWidth.StatusesWithin | generator/internal/coverage/coverage.go:181-182 | Generated and unclassified symbols are among all. |
| CoverageGate.Check | generator/internal/coverage/coverage.go:292-352 | The gate accepts exactly when both reports are consistent in 64-bit arithmetic, accounting is complete without mismatches, and, if asked, nothing is unclassified and no metric, total, scope or mismatch count is worse. |
| CoverageGate.AcceptedAgainstExactly | generator/internal/coverage/coverage.go:308-346 | With counts up to 3037000499: a report accepted by itself is accepted against a baseline if and only if the scope is the same, the total no smaller, there are no more mismatches, and each of the seven metrics is no smaller a share. |
| CoverageGate.GateIsARatchet | generator/internal/coverage/coverage.go:308-346 | For every limit on totals and counts by status: the gate is a ratchet (a report accepted against one that was accepted against an earlier one is accepted against the earlier one) if and only if the limit is at most 3037000499. |
| CoverageGate.RatchetHolds | generator/internal/coverage/coverage.go:308-346 | The direction that it is one up to that limit. |
| CoverageGate.RatioLessIsExact | generator/internal/coverage/coverage.go:354-356 | A metric is called less exactly when its ratio is, whenever both products are 64-bit numbers. |
| CoverageGate.MetricsAreRatios | generator/internal/coverage/coverage.go:181-202 | In an accepted report whose counts by status add up within 64 bits every metric is a part of the total. |
| CoverageGate.StatusSumFits | generator/internal/coverage/coverage.go:210-218 | Counts by status of at most 3037000499 each add up within 64 bits, since there are fourteen statuses. |
| CoverageGate.WrappedReportIsNotExact | generator/internal/coverage/coverage.go:210-218 | A report of one symbol, with counts by status of 2^63-1, 2^63-1 and 3, is accepted although it is not consistent. |
| CoverageGate.LargeCountsBreakTheRatchet | generator/internal/coverage/coverage.go:308-356 | With that report the ratchet fails although no total exceeds two: it is accepted against a first report and a third one against it, but not the third against the first. |
| CoverageGate.LargeTotalsHideAFall | generator/internal/coverage/coverage.go:354-356 | With totals of 3037000500 a fall of the pure-Go metric from everything to nothing is accepted. |
| Counts.CountsAddUp | generator/internal/coverage/coverage.go:76-83 | Counting items by a key gives positive counts that add up to the number of items. |
| Counts.CountedIs | generator/internal/coverage/coverage.go:76-83 | The count of a key is how many items have it. |
| Counts.SumCounts | generator/internal/coverage/coverage.go:210-218 | The sum of a map as it is left by 64-bit additions in any order, and whether there is a negative count. |
| Counts.MapDelta | generator/internal/coverage/coverage.go:275-289 | The delta has exactly the keys whose counts differ, with the differences in 64 bits. |
| Counts.DeltaLeadsTo | generator/internal/coverage/coverage.go:275-289 | Adding the delta in 64 bits to the first map gives the second, and no entry of it is zero. |
| Pipeline.IdsStayUnique | generator/pipeline.go:65-76 | Through numbering, any run of overrides and normalisation, the IDs are unique if and only if none had taken the identity of a numbered symbol before, for a hash that never collides. |
| Pipeline.NormalizedInventoriesReport | generator/pipeline.go:71-86 | Whatever was overridden: when the inventory normalises, its coverage report accounts for every symbol, and passes validation if and only if generator and manifest are named and there are symbols. |
| PInvoke.GeneratedExactly | generator/internal/metadata/winmd.go:190-238 | A method is generated if and only if its signature parsed, it is an import from a safe, user-mode DLL with an entry point, it has platform or stdcall convention and no varargs, and every value is one non-opaque, non-pointer, non-float word of at most 32 bits on 386 (or a void result). |
| PInvoke.SafeIsOneWord | generator/internal/metadata/winmd.go:672-690 | Among values that are not pointers, the safe ones are exactly the single words. |
| PInvoke.ComputeCapability | generator/internal/metadata/winmd.go:755-775 | The loop computes the candidate backend. |
| PInvoke.OneWordIsSmall | generator/internal/emit/emit.go:436-445 | A single word takes at most four bytes on 386 and is no float, pointer or wide scalar. |
| PInvoke.GeneratedCallsAreWords | generator/internal/emit/emit.go:366-392 | The emitted call of a generated function converts every parameter to one word and touches no pointer. |
| PInvoke.RenderCall | generator/internal/emit/emit.go:376-388 | The argument list has one argument per parameter, an address exactly for pointers. |
| Overrides.RunKeepsProjections | generator/internal/metadata/override.go:108-186 | Whatever overrides are applied, and however far a run gets, every symbol keeps its ID, its identity, its status, its backend and, if it is called, its function. |
| Overrides.ApplyOverrides | generator/internal/metadata/override.go:108-186 | In place and in order: each override applies to what the ones before it left, and the first that does not apply stops the run with its reason. |
| Overrides.OnlyNamedFieldsChange | generator/internal/metadata/override.go:143-169 | An applied override replaces exactly the fields it names, all of them allowed. |
| OverrideMeaning.AppliedExactly | generator/internal/metadata/override.go:117-179 | An override is applied to a symbol if and only if it is for its source, at a version whose text is between the bounds; every value recorded before is what the symbol shows; it replaces allowed fields by what can be read, and no function of a called symbol; and the symbol stays complete. |
| OverrideMeaning.ReplacedMeans | generator/internal/metadata/override.go:157-179 | An applied override replaces exactly the fields it names, marks the symbol and notes itself in the reason behind one semicolon. |
| OverrideMeaning.DoneMeansApplied | generator/internal/metadata/override.go:108-186 | In a run that succeeds every override was applied in its turn, to the last symbol with its ID and to nothing else. |
| OverrideMeaning.FailedMeansRefused | generator/internal/metadata/override.go:108-186 | A run that fails stops at the first override that may not apply and leaves what the ones before it made. |
| Overrides.AppliedKeepsProjection | generator/internal/metadata/override.go:148-179 | One applied override changes no identity, status, backend or called function. |
| Overrides.EmittedOfficialCallsAreWords | generator/internal/emit/emit.go:366-392 | After any overrides, every official function that is emitted has no varargs, platform or stdcall convention, a result that is one word or void, and each of its arguments, if any, is one converted word. |
| BitFields.UnsignedReadsBack | generator/internal/emit/emit.go:207-208 | On storage of any width up to 64, an unsigned field reads back what was written modulo two to its width. |
| BitFields.SignedReadsBack | generator/internal/emit/emit.go:203-205 | A signed field of at most 32 bits reads back what was written, wrapped to its width. |
| BitFields.SignedValuesInRangeReadBack | generator/internal/emit/emit.go:203-205 | A value in the field's range comes back unchanged. |
| BitFields.SetBits | generator/internal/emit/emit.go:204-208 | Writing changes the field's bits to the value's and no other bit. |
| BitFields.OtherFieldsAreKept | generator/internal/emit/emit.go:204-208 | Writing one field leaves what every disjoint field reads, signed or not, as it was. |
| BitFields.DisjointWritesCommute | generator/internal/emit/emit.go:204-208 | Writes of disjoint fields can change places. |

## Left out

- Real input and output: network, archives, JSON and metadata decoding, process calls. Their results are parameters, their failures are arbitrary choices.
- Interruption inside one file operation: an operation either happens or fails as the disk says. Only a recursive removal may leave anything behind.
- Generation.WriteGeneration: does not model how products are rendered and staged; the stage is given with arbitrary content, and a rendering error is the case in which nothing was planned.
- Generation.Preflight: which existing files are recognised as generated is a parameter, because that depends on file contents.
- Generation.Plan: the reviewed paths and the raw dumps are given in the order in which the code sorts them; nothing that is proved depends on that order.
- SlicePaths.SliceOrder: the paths are given sorted, as above.
- SliceWrite.WriteSlice: which existing files are recognised as generated is a parameter, because that depends on file contents; stage names are those that no slice path starts with.
- SlicePaths.ManifestToEnd: works on values, so the aliasing of the slice expressions in the reordering is not visible; the result is proved to be a permutation.
- Errors carry their kind where a caller can tell them apart; their texts are not modelled.
- SourceLock.ValidateLock: takes the same flag as SourceLock.CheckSources.
- SourceLock.CheckSources: takes as given, in one flag, whether a source's fields other than its ID and dependencies are acceptable; these are checks of one field at a time.
- The recursion of the depth-first search and of the type parser is not limited by a stack.
- AbiCompare: masks are bits rather than hexadecimal text; the integer a constant's text denotes and the shape of a function type are given with it, since parsing them is text processing of one value.
- AbiReport.CompareInventory: goes through the seven lists of measurements as one list in the same order.
- AbiBuilder.Builder.CompareFunction: lowers the letters A to Z only; calling conventions have no others.
- AbiReport.Run: covers the sums of the four fact counts; the sets of symbol IDs, diagnostics and provenance checks of the verifier are not modelled.
- JsonDiff.Compare: takes the two documents decoded, numbers being reals; paths are lists of steps rather than text, and the final sort of mismatches by path is not modelled.
- JsonDiff, OracleDiff: numbers are exact, while the code decodes both documents into 64-bit floating-point numbers, so that sizes, offsets or values above 2^53 that differ can compare equal there.
- OracleDiff.EqualExactly: is about results whose items show their IDs and share none within a list, as loading a result demands.
- OracleDiff.CompareResults: items with the same ID keep their order in the sort, while the code leaves their order open; no two have the same ID in what is proved of it.
- NuGetVersions, OverrideVersions: texts are bytes; the limit of 1024 bytes is modelled, the int of the second comparator has 64 bits.
- PInvoke: takes projected functions as they are, for any projection of signatures; backends and reasons of classified symbols are not modelled beyond the status.
- Overrides.ApplyOverrides: whether a replacement can be decoded, and as what function, is given with the replacement; files of overrides are not read.
- Overrides.EmittedOfficialCallsAreWords: is about symbols of the official metadata; fixtures of the project may have pointers.
- Pipeline: relates the symbols of one stage to those of the next by the fields both have; what a stage copies without looking at it is not repeated.
- Normalization.IngestionOrderIsForgotten: is about the order of symbols; Inventories.InputOrderIsForgotten is about all orders at once.
- Normalization.Normalize: is about the symbols; Inventories.Inventory.Normalize is about the rest. The hash behind IDs is a parameter.
- Inventories.Inventory.Normalize: the hash of the whole inventory is a parameter, and diagnostics that differ in nothing but their severity keep their order, while the code leaves that order open; no two are so in what is proved of orders.
- Disambiguation.Disambiguate: records the number and the size of a group as numbers rather than as text.
- Marking duplicate projections across sources: it sets an attribute and nothing here depends on it.
- LayoutLaws.StructOffsetsMean: is about structs in which no field name repeats; of repeated names the last offset is kept.
- Coverage: percentages are computed over reals and rounded, not over floating-point numbers; tables and Markdown are not modelled.
- BitFields: storage, offset and width are given; fields that do not fit their storage, and signed fields wider than 32 bits, do not compile in Go.
- Everything that is only text: emitted source, documentation, GUIDs. Bindings, bridge and runtime packages, and the libraries the generator uses.
- Uniqueness of parameter names: the code does not provide it.
