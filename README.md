# termspp core, modelled in Dafny

termspp builds a SNOMED CT ↔ MeSH cross-reference from the UMLS `MRCONSO.RRF`
file. Each line goes through a pipeline of policies:

1. It is split on `|` into columns.
2. A row filter drops unwanted rows: non-English, suppressed, or not a SNOMED or MeSH source.
3. Three columns are kept: CUI, source abbreviation and code.
4. A uniqueness check runs against the multimap already filled.
5. The row is packed, `uid\0src\0trg\0`, into memory handed out by a bump allocator (the arena).

A consistency pass then erases every CUI group that lacks a MeSH↔SNOMED pairing. An
earlier document type deduplicates through a nested map instead. Next to this
pipeline sit:

- a MeSH XML loader, with descriptor-class decoding and uid/name buffer packing;
- the MeSH lookup tables and record serialiser;
- whitespace trimming and Y/N coercion;
- the status/description value every operation returns.

The project models that core, one Dafny module per source file:

| module | file | models |
|---|---|---|
| `Memory` | `arena.dfy` | the arena (`src/common/arena.cpp`): a class with the cursor, the remaining bytes and the region list, plus ghost bookkeeping of the blocks handed out |
| `Rows` | `rows.dfy` | `ParseLine`, `FilterColumnIndices`, `ColumnSelect` and `RecordComp` (`src/mapper/defs.hpp`) |
| `Policies` | `policies.dfy` | `consoFilter`, `consoCheck` and `consoRecord` (`src/builder/policies.cpp`) |
| `Xref` | `sct.dfy` | `SctDocument` (`src/mapper/sct.hpp`) and the trivial policies of `src/mapper/defs.hpp`: a class whose methods are proved against a recursive specification of the line loop and of the consistency pass |
| `Mapping` | `map.dfy` | the earlier `MapDocument` (`src/mapper/map.hpp`) with its old filter and nested-map dedup |
| `Strings` | `strings.dfy` | `src/common/strings.hpp` |
| `MeshParser` | `mesh_parser.dfy` | `src/mesh/parser.cpp` over an abstract XML tree |
| `MeshDefs` | `mesh_defs.dfy` | the tables and serialiser of `src/mesh/defs.hpp` |
| `Results` | `result.dfy` | `src/common/result.hpp` |
| `Text` | `text.dfy` | shared helpers: C-string views, prefix tests, byte-wise ordering, decimal rendering |

Outside the process, the input file is an abstract sequence of lines. Whether the file
exists, whether the line reader fails to open it or fails while reading, and at which
lines the system refuses a new arena region are inputs too (`Xref.SourceFile`). The
same holds for the MeSH side: whether the XML file exists, the tree pugixml parses
(or its failure), and the answers of the memory pool.

Where the code and its documentation disagree, the model follows the code:

- `loadFile` never inserts into the descriptor map.
- The constructor of `MeshDocument` ignores the loader's verdict.
- The MeSH branch of `consoFilter` rejects known codes. `Policies.ConsoFilter` models that as written; the document model uses the corrected filter (see Findings).
- The consistency pass's `equal_range` on a uid can miss the uid's entries when one stored uid is a proper prefix of another, because key order then does not keep a uid's entries in one run. The document model groups entries exactly (`Xref.Group`, see Findings and `Xref.UidRangeUnpartitioned`).
- The multimap's `contains` in `consoCheck` can miss a stored key. `Policies.ConsoCheckAsWritten` models it as written; the document model uses the exact lookup `Policies.ConsoCheck` (see Findings).

## Model

| member | source | states |
|---|---|---|
| Memory.RegionSize | src/common/arena.cpp:81 | the region requested on growth is `max(size, mcsize)`: at least both, and equal to one of them |
| Memory.Alloc | src/common/arena.cpp:13-23 | a zero-size request succeeds with `nullptr` without asking the system; otherwise success iff the system returns a non-null address, which is returned |
| Memory.Arena.NextFree | src/common/arena.cpp:105-116 | an address past the end of every region held, non-null: a region the system may hand out next |
| Memory.Arena.constructor | src/common/arena.cpp:73 | a new arena has no regions, a null cursor and nothing remaining, and satisfies the arena invariant |
| Memory.Arena.Allocate | src/common/arena.cpp:79-91 | a request that fits returns the cursor, advances it by `size`, shrinks the remainder by `size` and keeps the regions; otherwise exactly one region of `max(size, mcsize)` is appended and the block starts it; a refused region changes nothing and returns false; the invariant (remainder non-negative, cursor + remainder = end of the last region, regions and live blocks pairwise disjoint) is kept and the new block is recorded as live |
| Memory.Arena.Bump | src/common/arena.cpp:87-90 | the fitting case of `Allocate`: the block starts at the old cursor, lies below the new cursor and overlaps no earlier live block |
| Memory.Arena.AllocateRegion | src/common/arena.cpp:105-116 | success iff the system grants the region; then it is appended and becomes current with all of it remaining, and every earlier live block lies in an earlier region; on failure nothing changes |
| Memory.Arena.Release | src/common/arena.cpp:93-103 | only the first region is kept, the cursor is at its start with all of it remaining, every block handed out so far is invalidated, and the invariant holds |
| Memory.Arena.ReleaseRegions | src/common/arena.cpp:118-129 | the loop erases every region after the first, or every region when destroying |
| Memory.Arena.Dispose | src/common/arena.cpp:75-77 | the destructor leaves no region |
| Rows.SizeHint | src/mapper/defs.hpp:191-194 | the size hint is at least one byte per column, and zero exactly when there are no columns |
| Rows.JoinLength | src/mapper/defs.hpp:191-194 | the size hint equals the length of the columns each followed by the delimiter, i.e. the sum of `length + 1` |
| Rows.Find | src/mapper/defs.hpp:189 | `strpbrk` with a one-character set finds the first occurrence of the delimiter, and nothing exactly when it does not occur |
| Rows.FieldsNoToken | src/mapper/defs.hpp:181-202 | no emitted column contains the delimiter |
| Rows.FieldsSplit | src/mapper/defs.hpp:181-202 | the columns, each followed by the delimiter, then the unconsumed rest give back the input; the rest is empty, starts with a line feed, or holds no delimiter, so text after the last delimiter is never a column |
| Rows.FieldsOfJoin | src/mapper/defs.hpp:181-202 | joining delimiter-free columns that do not start with a line feed and parsing them gives the same columns back, whatever delimiter-free rest follows |
| Rows.ParseLine | src/mapper/defs.hpp:172-215 | the pointer loop yields exactly the delimiter-terminated columns of the line read as a C string, a size hint of the sum of `length + 1`, and `kNoRowData` exactly when no column was produced |
| Rows.FieldsNoNul | src/mapper/defs.hpp:179-189 | a column read from a C string holds no NUL |
| Rows.Positions | src/mapper/defs.hpp:148-161 | the selected indices below the column count, strictly increasing, and exactly those |
| Rows.KeptSpec | src/mapper/defs.hpp:148-161 | the kept columns are exactly the columns at the selected indices, in column order, not selection order; indices past the end are ignored |
| Rows.PickSpec | src/mapper/defs.hpp:148-161 | the same for a whole row |
| Rows.IncreasingUnique | src/mapper/defs.hpp:148-161 | two strictly increasing index lists with the same elements are equal, so the kept columns do not depend on how the selection is ordered or repeated |
| Rows.PickIncreasing | src/mapper/defs.hpp:148-161 | for an increasing selection of existing indices, the kept columns are the selection's columns in the selection's order |
| Rows.PickSubset | src/mapper/defs.hpp:148-161 | every kept column is a column of the row |
| Rows.FilterColumnIndices | src/mapper/defs.hpp:148-161 | the stable partition puts the selected columns first, in order, then the others, in order; it is a permutation of the row; the size is the sum of `length + 1` over the selected columns |
| Rows.PartitionPermutes | src/mapper/defs.hpp:152-160 | kept and dropped columns together are a permutation of the columns |
| Rows.ColumnSelect | src/mapper/defs.hpp:250-253 | after erasing past the partition point the row holds exactly the selected columns, its size is their sum of `length + 1`, and its status is unchanged |
| Rows.ConsoSelection | src/builder/document.cpp:26-29 | on a full MRCONSO row the selection `0, 11, 13` yields the CUI, the source abbreviation and the code |
| Rows.LookupEquivalence | src/mapper/defs.hpp:70-112 | a key and a component lookup are equivalent exactly when the non-empty components of the lookup spell the same text as the key's matching components |
| Rows.UidEquivalence | src/mapper/defs.hpp:114-120 | a key and a bare uid are equivalent exactly when the uids are equal |
| Rows.KeyLessStrict | src/mapper/defs.hpp:60-68 | the key comparator, `uid ++ src` with the target ignored, is irreflexive and transitive |
| Rows.KeyOrderSplitsUids | src/mapper/defs.hpp:60-68 | as written, the key `("AB","A")` sorts before `("A","C")` although uid "A" sorts before "AB", so one uid's entries need not be contiguous |
| Rows.KeyLessByUidGroups | src/mapper/defs.hpp:60-68 | under the intended order (uid, then source) an earlier key never has a greater uid |
| Rows.KeyOrdersAgree | src/mapper/defs.hpp:60-68 | the written and the intended orders agree whenever neither uid is a proper prefix of the other |
| Text.CStrPrefix | src/mesh/parser.cpp:48-49 | a C-string view is the longest NUL-free prefix of the buffer: it stops at the end or right before the first NUL |
| Text.LexIrreflexive | src/mapper/defs.hpp:67 | `compare(a, a) < 0` never holds |
| Text.LexTransitive | src/mapper/defs.hpp:67 | byte-wise order is transitive |
| Text.LexTotal | src/mapper/defs.hpp:67 | two strings are equal or one sorts before the other |
| Text.LexAsymmetric | src/mapper/defs.hpp:67 | byte-wise order is asymmetric |
| Text.NatToString | src/mesh/defs.hpp:21-25 | the decimal rendering is non-empty and made of digits only; `MeshParser.HornerOfDecimal` reads it back |
| Policies.ConsoFilter | src/builder/policies.cpp:16-51 | a row of fewer than 18 columns is rejected, and so is a non-English or suppressed row, whatever its other fields |
| Policies.ConsoFilterKeeps | src/builder/policies.cpp:16-51 | as written, a row is kept exactly when it is full, English, unsuppressed, has a source and a code of at least 3 bytes, the source matches the coding pattern, and (with a MeSH document) its MSH code is unknown to the document |
| Policies.ConsoFilterIntendedKeeps | src/builder/policies.cpp:41-50 | the corrected filter keeps an MSH row exactly when the MeSH document knows its code, all other conditions being the same |
| Policies.MeshNarrows | src/builder/policies.cpp:37-50 | loading a MeSH document only ever narrows what either filter keeps |
| Policies.KnownMeshCodeRejected | src/builder/policies.cpp:45-48 | as written, an MSH row whose code the MeSH document knows is rejected and one it does not know is kept; the corrected filter does the opposite |
| Policies.CodingExamples | src/builder/policies.cpp:14 | the coding pattern accepts SNOMEDCT_US, MSH and MSHFRE, refuses SNOMEDCT_VET and other sources, and, because `.` stops at a line terminator, accepts a VET suffix behind one |
| Policies.ConsoCheck | src/builder/policies.cpp:53-64 | the corrected check, with an exact lookup (see Findings): a row is mapped only when it has three columns and a positive size |
| Policies.ConsoCheckSpec | src/builder/policies.cpp:53-64 | on such a row the corrected check refuses exactly when some stored key spells the same text as the row over the components the lookup compares; the multimap's own lookup keeps only the "refused implies stored" direction (`Policies.ContainsAsWrittenSound`) |
| Policies.Emplace | src/mapper/sct.hpp:172 | `emplace` adds exactly the new key to the multimap and nothing else |
| Policies.EmplaceSorted | src/mapper/defs.hpp:124 | emplacing keeps the multimap in `uid ++ src` key order |
| Policies.InOrder | src/mapper/sct.hpp:172 | the multimap's in-order sequence holds exactly the stored keys |
| Policies.InOrderSorted | src/mapper/defs.hpp:124 | whatever the insertion order, the multimap is in key order |
| Policies.LowerBoundSpec | src/builder/policies.cpp:59 | the lookup's lower bound: every earlier entry precedes the lookup and the entry there does not |
| Policies.ConsoCheckAsWritten | src/builder/policies.cpp:53-64 | `consoCheck` with the multimap's lower-bound lookup maps a row only when it has three columns and a positive size |
| Policies.LowerBoundFinds | src/builder/policies.cpp:59 | when the entries are ordered as the lookup compares them, the lower bound lands on an equivalent entry whenever one is stored |
| Policies.ContainsAsWrittenSound | src/builder/policies.cpp:59 | when the multimap's lookup reports a match, a stored key really is equivalent to the lookup |
| Policies.OrderedLookupExact | src/mapper/defs.hpp:70-112 | when the entries before the lookup come first, then the equivalent ones, then the rest, the multimap's lookup finds a match exactly when one is stored |
| Policies.LookupMissesStoredKey | src/builder/policies.cpp:59 | rows (C1, SNOMEDCT_US, 200), (C1, SNOMEDCT_US, 100) and (C1, SNOMEDCT_US, 100) all pass the check as written, although the third one's key is already stored |
| Policies.ConsoCheckFresh | src/builder/policies.cpp:59-61 | a row the corrected check accepts has a key that is not yet stored |
| Policies.ConsoRecord | src/builder/policies.cpp:66-94 | the columns are written, each followed by NUL, at a running offset from 0, and nothing past them changes; the uid, source and target fields point at offsets 0, `len0 + 1` and `len0 + len1 + 2` (null when the column is missing); success exactly for at most three columns, a fourth being written and then refused |
| Policies.PackColumn | src/builder/policies.cpp:70-90 | one iteration writes column `k` and its terminator right after the first `k` columns, leaving the packed prefix intact |
| Policies.Copy | src/builder/policies.cpp:73 | `memcpy` writes exactly the copied range and nothing else |
| Policies.PackedReadBack | src/builder/policies.cpp:78-84 | a NUL-free column read back through its field pointer as a C string is that column |
| Xref.ConsoPolicies | src/builder/document.cpp:120-129 | the xref policy set pairs the record builder with the uniqueness check; its filter is `consoFilter` with the MeSH branch corrected (see Findings) |
| Xref.Filter | src/mapper/defs.hpp:219-231 | `NoRowFilter` rejects nothing; `RowFilter` rejects what its predicate rejects |
| Xref.Select | src/mapper/defs.hpp:243-253 | `AllSelected` leaves the row unchanged; a column selection keeps the selected columns in order and resizes; the status is unchanged |
| Xref.ShouldMap | src/mapper/defs.hpp:257-269 | `MapAll` maps every row; the selector maps exactly what `consoCheck` accepts |
| Xref.BuildKey | src/mapper/defs.hpp:272-284 | `NoBuilder` always fails; the record builder succeeds on exactly three columns and the key read back is those three columns |
| Xref.Admitted | src/mapper/sct.hpp:146-162 | an admitted row parsed successfully, has its size hint as size, and under the uniqueness check has three columns that check accepts |
| Xref.AdmittedClean | src/mapper/sct.hpp:146-157 | an admitted row's columns hold no NUL |
| Xref.AllocFailureMessage | src/mapper/sct.hpp:186-199 | the allocation-failure message starts with "Unable to allocate row of Size<" |
| Xref.CellsLength | src/mapper/sct.hpp:192-197 | the listed row is each column followed by " | ", the last by " |": its length is the size hint plus `2·n − 1` |
| Xref.CellsEnd | src/mapper/sct.hpp:192-197 | the listing ends with the last column and " |"; with no columns the message ends with the opening "\t| " |
| Xref.AllocOutcome | src/mapper/sct.hpp:182-209 | a refused allocation gives `kAllocationErr` with the row message; otherwise `NoBuilder` gives `kPolicyErr` "failed to build record"; a key is stored exactly when nothing is refused and the record builder sees three columns |
| Xref.RunStores | src/mapper/sct.hpp:164-172 | a stored line appends its own key and shrinks the arena's remainder by the row size, or starts a new region |
| Xref.RunEnds | src/mapper/sct.hpp:174-178 | past the last line the parse ends with the reader's error or with success |
| Xref.RunSkips | src/mapper/sct.hpp:146-162 | a line that fails to parse, is filtered out or is not mapped changes nothing |
| Xref.RunFails | src/mapper/sct.hpp:166-169 | a failed `allocRow` ends the parse with its error, keeping what was stored before |
| Xref.RunExtends | src/mapper/sct.hpp:142-173 | the line loop only appends to the store |
| Xref.NoBuilderStoresNothing | src/mapper/sct.hpp:202-206 | with `NoBuilder` nothing is stored, and a successful parse admitted no line |
| Xref.RunUnique | src/builder/policies.cpp:53-64 | under the corrected `consoCheck` the store never holds the same (uid, source, target) twice |
| Xref.RunStatus | src/mapper/sct.hpp:129-179 | the line loop ends in success, `kLineReaderErr`, `kAllocationErr` or `kPolicyErr`; it ends in success exactly when the reader raised nothing and the result is a plain `kSuccessful` with no message |
| Xref.Group | src/mapper/sct.hpp:108 | the corrected grouping: exactly the store's entries of the uid, which is what `equal_range` yields when each uid's entries form one run in key order |
| Xref.GroupsContiguous | src/mapper/defs.hpp:60-68 | when no stored uid is a proper prefix of another, each uid's entries form one run of the multimap's key order, so the multimap is partitioned for `equal_range` on a uid |
| Xref.UidRangeUnpartitioned | src/mapper/defs.hpp:114-120 | with (C1, MSH), (C1, SNOMEDCT_US) and (C12, MSH) stored, the C12 entry comes first in key order while the C1 entries after it precede "C12" under the uid-only comparison, so the multimap is not partitioned for `equal_range("C12")`; `Group` still yields the C12 entry |
| Xref.MinSrc | src/mapper/sct.hpp:98-101 | the first record of a group in key order has one of the group's sources |
| Xref.MinSrcLeast | src/mapper/sct.hpp:98-101 | that source is the least of the group's sources |
| Xref.Sibling | src/mapper/sct.hpp:103-105 | the sibling of a MeSH source is SNOMED, and of anything else MeSH |
| Xref.Survivors | src/mapper/sct.hpp:98-123 | the entries kept are exactly those whose uid group is not doomed |
| Xref.Drop | src/mapper/sct.hpp:117 | erasing uid groups never grows the store |
| Xref.PruneGroups | src/mapper/sct.hpp:98-123 | the pass erases whole uid groups and leaves every other group exactly as it was |
| Xref.PruneIdempotent | src/mapper/sct.hpp:98-123 | a second pass changes nothing |
| Xref.PrunePairs | src/mapper/sct.hpp:110-119 | when every source is MeSH or SNOMED, an entry survives exactly when its group holds both a MeSH and a SNOMED source |
| Xref.SurvivorsNoDup | src/mapper/sct.hpp:116-122 | the pass keeps the store free of duplicates |
| Xref.ConsoAdmitted | src/builder/document.cpp:120-129 | under the MRCONSO policies an admitted row has three columns and a MeSH or SNOMED source |
| Xref.RunCoded | src/builder/policies.cpp:35-50 | under the MRCONSO policies every stored source is MeSH or SNOMED |
| Xref.ConsoDocumentPaired | src/mapper/sct.hpp:91-126 | with the corrected filter and check, a successfully loaded MRCONSO document holds no duplicate, and every uid it keeps has both a MeSH and a SNOMED source |
| Xref.AnyPrefixed | src/mapper/sct.hpp:111-113 | `any_of` is true exactly when some entry's source starts with the sibling |
| Xref.StrView | src/mapper/sct.hpp:108 | `string_view{ptr}` reads the bytes up to the first NUL |
| Xref.SctDocument.constructor | src/mapper/sct.hpp:218-220 | the document's result and records are those of `buildSctping` on an empty store |
| Xref.SctDocument.Ok | src/mapper/sct.hpp:70-72 | the document is ok exactly when its result is a success |
| Xref.SctDocument.BuildSctping | src/mapper/sct.hpp:91-126 | a failed parse becomes the result, with what was stored; a successful one is followed by the consistency pass |
| Xref.SctDocument.ParseFile | src/mapper/sct.hpp:129-179 | a missing file gives `kFileNotFoundErr`; a reader that cannot open gives `kFileInitErr` after a fresh arena is created; otherwise the line loop runs over that arena |
| Xref.SctDocument.ParseLines | src/mapper/sct.hpp:142-178 | the loop's result and store are those of the line-loop specification, and the arena invariant is kept |
| Xref.SctDocument.ParseStep | src/mapper/sct.hpp:144-172 | one iteration either stops with the specification's error or continues exactly as the specification does |
| Xref.SctDocument.AdmitRow | src/mapper/sct.hpp:146-162 | the per-line checks compute the admitted row |
| Xref.SctDocument.AllocRow | src/mapper/sct.hpp:182-209 | allocation then building gives the specified outcome, and the arena's remainder moves as `Allocate` moves it |
| Xref.SctDocument.BuildRow | src/mapper/sct.hpp:202-208 | once memory is reserved, the builder's outcome is the specified one, the key being read back through the record's pointers |
| Xref.SctDocument.ConsistencyPass | src/mapper/sct.hpp:98-123 | the walk leaves exactly the entries of the uid groups that hold the sibling source, with groups taken exactly (`Xref.Group`) |
| Xref.Visit | src/mapper/sct.hpp:99-122 | one step erases a doomed group or moves the cursor past one kept entry in insertion order, strictly shrinking the unvisited part |
| Xref.FormatAllocFailure | src/mapper/sct.hpp:186-197 | the stream loop writes exactly the specified message |
| Mapping.OldConsoFilter | src/mapper/map.hpp:170-187 | the old filter keeps a row exactly when it is full, English, unsuppressed and its source starts with SNOMED or MSH |
| Mapping.FilterNarrowed | src/mapper/map.hpp:170-187 | every row the later filter keeps, the old one keeps too |
| Mapping.FilterNarrowedStrictly | src/mapper/map.hpp:170-187 | the old filter keeps the veterinary SNOMED extension and a 2-byte code; the later one rejects both |
| Mapping.Packing | src/mapper/map.hpp:295-299 | `bufLen` is the number of bytes packed and `colLen` fits 16 bits |
| Mapping.PackingReadsBack | src/mapper/map.hpp:284-299 | the packed record reads back, as C strings, to the CUI, the source and the code |
| Mapping.Insert | src/mapper/map.hpp:358-363 | storing under (CUI, key) sets that entry, creating the CUI when absent, and keeps every other entry unchanged and adds none |
| Mapping.MapAdmitted | src/mapper/map.hpp:323-336 | a recorded row has at least three columns and a positive size equal to its size hint |
| Mapping.MapAdmittedClean | src/mapper/map.hpp:323-336 | a recorded row's columns hold no NUL |
| Mapping.RunMapSkips | src/mapper/map.hpp:324-349 | a line not recorded, or whose (CUI, source, code) is already stored, changes nothing |
| Mapping.RunMapFails | src/mapper/map.hpp:352-356 | a refused allocation ends the pass with `kAllocationErr` and the row message, keeping the records so far |
| Mapping.RunMapStores | src/mapper/map.hpp:352-363 | a new row's packing is stored under its keys and the arena moves on |
| Mapping.RunMapEnds | src/mapper/map.hpp:365-370 | past the last line the result is the reader's error or success |
| Mapping.RunMapKeeps | src/mapper/map.hpp:344-349 | a stored record is never replaced or removed: the first row for a (CUI, source, code) wins |
| Mapping.RunMapComplete | src/mapper/map.hpp:320-370 | after a successful pass every recorded line's (CUI, source, code) is present |
| Mapping.InsertConsistent | src/mapper/map.hpp:358-363 | storing the packing of a NUL-free row keeps every record reading back to its keys |
| Mapping.RunMapConsistent | src/mapper/map.hpp:320-364 | every record the pass stores reads back to the keys it is stored under |
| Mapping.PackRow | src/mapper/map.hpp:284-293 | the packing loop fills the buffer with each column followed by NUL and ends at the size hint |
| Mapping.MapDocument.constructor | src/mapper/map.hpp:381-383 | the result and records are those of `buildMapping` on an empty map |
| Mapping.MapDocument.BuildMapping | src/mapper/map.hpp:303-371 | a missing file or a reader that cannot open fails before any line; otherwise a fresh arena backs the specified pass |
| Mapping.MapDocument.BuildLines | src/mapper/map.hpp:320-370 | the loop's result and records are those of the pass specification |
| Mapping.MapDocument.BuildStep | src/mapper/map.hpp:322-363 | one iteration stops with the specification's error or continues exactly as it does |
| Mapping.MapDocument.AdmitRow | src/mapper/map.hpp:323-336 | the per-line checks compute the recorded row |
| Mapping.MapDocument.AllocRow | src/mapper/map.hpp:265-300 | failure exactly when a new region is refused, with the row message; otherwise the packing of the row |
| Strings.NotWhitespace | src/common/strings.hpp:12-29 | a character is whitespace exactly when it is space, tab, line feed, form feed, vertical tab or carriage return |
| Strings.LeadingRun | src/common/strings.hpp:32-42 | the leading whitespace run is maximal: all of it is whitespace and the next character is not |
| Strings.TrailingRun | src/common/strings.hpp:45-55 | the trailing whitespace run is maximal |
| Strings.TrimLeft | src/common/strings.hpp:32-42 | the string loses exactly its maximal leading whitespace run, whose length is returned as `uint32_t` |
| Strings.TrimRight | src/common/strings.hpp:45-55 | the string loses exactly its maximal trailing whitespace run, whose length is returned as `uint32_t` |
| Strings.Trim | src/common/strings.hpp:58-66 | trimming is left then right, the counts summed in `uint32_t` |
| Strings.TrimmedSpec | src/common/strings.hpp:58-66 | the trimmed string is a middle part of the input that neither starts nor ends with whitespace, and trimming it again removes nothing |
| Strings.CoerceIntoBoolean | src/common/strings.hpp:69-85 | on a non-blank input, Y or y as the first non-blank character gives true, N or n gives false, and anything else is the error |
| MeshDefs.MeshType.ToInteger | src/mesh/defs.hpp:31-37 | a node kind's ordinal is its place in the declaration |
| MeshDefs.MeshCategory.ToInteger | src/mesh/defs.hpp:40-55 | a category's ordinal is its place in the declaration |
| MeshDefs.MeshModifier.ToInteger | src/mesh/defs.hpp:60-73 | a modifier's ordinal is its place in the declaration |
| MeshDefs.TypeOfInteger | src/mesh/defs.hpp:16-19 | the ordinals 0..4 and only those decode to a node kind whose ordinal they are |
| MeshDefs.CategoryOfInteger | src/mesh/defs.hpp:16-19 | the ordinals 0..9 and only those decode to a category whose ordinal they are |
| MeshDefs.ModifierOfInteger | src/mesh/defs.hpp:16-19 | the ordinals 0..9 and only those decode to a modifier whose ordinal they are |
| MeshDefs.NodeFieldsShape | src/mesh/defs.hpp:127-134 | entry `i` of the node-field table describes kind `i + 1`; only the Term has no name field and is flagged unnamed; only the Qualifier is encapsulated; the Term uid field is "TermUI" |
| MeshDefs.NodeTypeOf | src/mesh/defs.hpp:137-144 | the node-type table knows exactly the four element names, each for its own kind, and never yields the unknown kind |
| MeshDefs.ModifierOf | src/mesh/defs.hpp:148-160 | the modifier table knows exactly the nine codes, one to one with the nine known modifiers; any other code is absent |
| MeshDefs.LineFields | src/mesh/defs.hpp:93-97 | a record line has five `|`-terminated fields before the modifier |
| MeshDefs.DecodeOrdinal | src/mesh/defs.hpp:96-98 | a one-digit ordinal decodes below 10 |
| MeshDefs.SerializeReadsBack | src/mesh/defs.hpp:86-100 | a serialised record reads back to its uid (`uidLen` bytes of the buffer), its name (`nameLen` bytes one past the uid), its parent (empty when null) and its three enumerators, given fields free of `|` |
| MeshDefs.OrdinalText | src/mesh/defs.hpp:21-25 | an ordinal below 10 is written as one digit that decodes back to it |
| MeshParser.ToU8 | src/mesh/parser.cpp:24 | the cast to `uint8_t` lands below 256 |
| MeshParser.ToU16 | src/mesh/parser.cpp:48-49 | the cast to `uint16_t` never grows a length and keeps any below 65536 |
| MeshParser.DigitValue | src/mesh/parser.cpp:24 | a decimal digit has its face value, and nothing is worth more than 36 |
| MeshParser.Finish | src/mesh/parser.cpp:24 | `strtoul`'s result never exceeds `ULONG_MAX` |
| MeshParser.ScanDigits | src/mesh/parser.cpp:24 | a run of digits of the base reads as its positional value, saturated or negated |
| MeshParser.HornerOfDecimal | src/mesh/parser.cpp:24 | a decimal rendering's digits have the rendered value |
| MeshParser.StrToULOfDecimal | src/mesh/parser.cpp:24 | `strtoul` reads every decimal rendering of an `unsigned long` back exactly |
| MeshParser.StrToULOfNegated | src/mesh/parser.cpp:24 | a minus sign negates the value modulo 2^64 |
| MeshParser.StrToULNoDigits | src/mesh/parser.cpp:24 | text that does not start with a digit, blank or sign reads as 0 |
| MeshParser.TryGetDescriptorClass | src/mesh/parser.cpp:18-33 | an empty attribute is refused with `kInvalidDataType`; every refusal is that error; an accepted class is at most 4 |
| MeshParser.DecimalClass | src/mesh/parser.cpp:24-29 | a decimal class is accepted exactly when its low byte is at most 4 and then decodes to that byte: "260" is class 4, "5" is refused |
| MeshParser.NegatedClass | src/mesh/parser.cpp:24-29 | a negative class wraps modulo 2^64 before the low byte is taken: "-252" is class 4 |
| MeshParser.NonNumericClass | src/mesh/parser.cpp:24-29 | a class that does not start with a number is accepted as 0: there is no lower bound |
| MeshParser.FirstNamed | src/mesh/parser.cpp:42-43 | `child(name)` finds a child of that name, and finds none only when no child has it |
| MeshParser.Packed | src/mesh/parser.cpp:53-59 | the buffer holds `uidLen + nameLen` bytes, each length being strlen + 1 cut to 16 bits |
| MeshParser.RecordOutcome | src/mesh/parser.cpp:36-68 | the record parses exactly when its class decodes and the pool grants the allocation; a refused allocation is `kAllocationFail`; `kUnknownNodeType` never occurs |
| MeshParser.PackedReadsBack | src/mesh/parser.cpp:48-62 | for uid and name shorter than 65535 bytes the buffer is `uid\0name\0`, and the uid and the name read back as C strings at offsets 0 and `uidLen` |
| MeshParser.LongUidWraps | src/mesh/parser.cpp:48-59 | a 65535-byte uid makes `uidLen` wrap to 0, so nothing of the uid is copied and the name starts the buffer |
| MeshParser.ParseDescriptorRecord | src/mesh/parser.cpp:36-68 | the result is the specified outcome; on success the record's buffer is fresh and packed, the lengths are strlen + 1 cut to 16 bits, `uidPtr` is the buffer and `namePtr` is `uidLen` past it, and the class is the decoded one |
| MeshParser.PackBuffer | src/mesh/parser.cpp:58-59 | the two copies fill a fresh buffer with the packed bytes |
| MeshParser.RecordChildren | src/mesh/parser.cpp:100-103 | the records the loop considers are all named `DescriptorRecord` |
| MeshParser.VisitOnlyRecords | src/mesh/parser.cpp:100-110 | children of other names change neither the verdict nor the pool |
| MeshParser.VisitAccepts | src/mesh/parser.cpp:100-110 | over records alone the loop succeeds exactly when every record's class decodes and each allocation is granted |
| MeshParser.LoadsExactly | src/mesh/parser.cpp:83-119 | `loadFile` succeeds exactly when the file exists, parses, has a `DescriptorRecordSet` root, and every `DescriptorRecord` below it parses |
| MeshParser.MeshDocument.constructor | src/mesh/parser.cpp:71-74 | a new document has no records whatever the file, and its pool holds what the loader took |
| MeshParser.MeshDocument.LoadFile | src/mesh/parser.cpp:83-119 | the verdict is the specified one, the pool grows by the buffers parsed before the loop stops, and no record is inserted |
| Results.Result.Ok | src/common/result.hpp:143-145 | ok exactly when the status is `kSuccessful` |
| Results.Result.SetStatus | src/common/result.hpp:58-60 | only the status changes |
| Results.Result.SetMessage | src/common/result.hpp:63-65 | only the message changes |
| Results.Result.Description | src/common/result.hpp:78-140 | the status phrase alone without a message; otherwise the phrase, " with msg: ", then exactly the message read as a C string, and one trailing NUL from the buffer sized one past the text |
| Results.Default | src/common/result.hpp:36 | a default result is a success with no message |
| Results.WithStatus | src/common/result.hpp:39 | a result built from a status has that status and no message |
| Results.PhraseShared | src/common/result.hpp:80-125 | two statuses share a phrase only when they are equal or are the two node-data errors |
| Results.NodeDataPhrase | src/common/result.hpp:117-119 | `kInvalidDataTypeErr` and `kEmptyNodeDataErr` both read "Failed to resolve node data" |

## Left out

- File and XML I/O are left out: file existence, the CSV line reader, pugixml parsing and the output writer. Their outcomes are inputs of the model (`Xref.SourceFile`, the `found`/`doc` parameters of the MeSH loader), and the exception texts are opaque strings.
- mimalloc is abstract. A granted region is a fresh non-null address clear of every region held, and refusals are a set of line numbers. The 64-byte alignment, `kMeshRecordAlignment`, `mi_collect` and the unused `realloc` helper are not modelled.
- `dealloc` returns early for every non-null pointer, so dropped regions are never freed (src/common/arena.cpp:27-33). The model only tracks the region list and does not model freeing.
- The arena's bytes are not modelled. A packed row is a fresh array standing for the block `Allocate` returned; the arena itself models addresses, extents and non-overlap.
- Memory.Arena.Release: requires at least one region. With none, `regions_.front()` is undefined (the `size < 0` guard on an unsigned size never fires).
- Memory.Arena.ReleaseRegions: requires at least one region when not destroying. Advancing the iterator past `begin()` of an empty vector is undefined.
- Signed 64-bit sizes and `uint64_t` size hints are unbounded integers. No row or region comes near 2^63 bytes.
- `std::regex` is replaced by explicit predicates. `^(SNOMED(?!.*?VET$))|^(MSH)` becomes `Policies.CodingMatch`, including the rule that `.` does not cross a line terminator. `^(SNOMED|MSH)` becomes `StartsWith`.
- `std::stable_partition` is modelled by its result: a stable split, selected columns first.
- `strpbrk` on a one-character array with no terminator is read as "find the first delimiter".
- The input line is read as a C string up to its first NUL.
- `MeshDocument::HasIdentifier` is not declared in src/mesh/parser.hpp. The MeSH document a filter consults is therefore an optional set of known identifiers.
- The `RecordSct` multimap is the sequence of its keys in insertion order. Its key-ordered view is `Policies.InOrder`. Key order matters in two places: the uniqueness lookup, and the consistency pass, where the first record of a group has the least source.
- Policies.LowerBound: the red-black tree walk is modelled as the first entry in key order that the lookup does not follow. The two agree whenever the entries before the lookup come first, as under `Policies.OrderedLookupExact` and on the input of `Policies.LookupMissesStoredKey`. Otherwise the tree's answer depends on its shape, which is not modelled. Either way, a reported match is a stored equivalent key.
- Policies.ConsoCheckSpec: holds for the corrected exact lookup `Policies.ConsoCheck`, which the document model uses. The program's `contains` misses a stored key when a uid+source run is not target-sorted. Only the "refused implies stored" direction holds for it (`Policies.ContainsAsWrittenSound`).
- Policies.ConsoCheckFresh: holds for the corrected lookup only. As written, the third row of `Policies.LookupMissesStoredKey` is accepted although its key is stored.
- Xref.RunUnique: proved for the corrected lookup. With the program's lookup the store can hold (C1, SNOMEDCT_US, 100) twice (`Policies.LookupMissesStoredKey`). Uniqueness then holds only while every lookup meets the ordering hypothesis of `Policies.OrderedLookupExact`, and the line loop is not modelled under that hypothesis.
- Xref.ConsoDocumentPaired: its no-duplicate half rests on the corrected lookup, as for `Xref.RunUnique`. Its pairing half rests on exact grouping, as for `Xref.PrunePairs`: on the input of `Xref.UidRangeUnpartitioned` the program can keep an unpaired uid.
- The record stored next to a key is not kept. `Xref.BuildKey` reads the key back through the record's pointers.
- Xref.WellFormed: the record builder is only modelled together with the uniqueness check. `consoRecord` leaves the key pointers null for rows of fewer than three columns, and building a key from them is undefined; only `consoCheck` excludes such rows, which is the pairing the program uses.
- Xref.SctDocument.ConsistencyPass: runs on a local copy of the store and assigns it at the end. It groups exactly, as `Xref.Group` says. The program's `equal_range` agrees with this only when each uid's entries form one run in key order (`Xref.GroupsContiguous`). Take the admitted rows (C1, MSH, D01), (C1, SNOMEDCT_US, 100) and (C12, MSH, D02). The multimap is not partitioned for "C12" (`Xref.UidRangeUnpartitioned`), and libstdc++'s walk can return an empty range there and keep the unpaired C12 record, which the model erases. The tree walk is not modelled.
- Xref.Group: exact only when each uid's entries form one run in key order, for instance when no stored uid is a proper prefix of another. It does not match `equal_range` on the input above.
- Xref.PrunePairs: states the pairing for exact groups. For the program it holds only under the hypothesis of `Xref.GroupsContiguous`.
- Xref.Visit: walks the store in insertion order, one entry at a time, and looks a kept group up again at each of its entries. The source walks key order and jumps to the end of the range. The model does not capture the key-order iteration or the jump; what it proves is the end state, `Prune` of the store.
- The arena is passed to the line-loop methods as a parameter rather than read through the document.
- `Load`, `GetRef`, `GetRecords`, `Status` and `GetResult` (shared-pointer and accessor glue) are left out.
- `MapDocument`'s `target_` (the stored path) is left out.
- The unordered nested map of src/mapper/map.hpp is a Dafny `map` of `map`s. Its hashing and its `const char *` keys are not modelled: CUIs are compared by content, as the `CharComp` comparator does.
- The `ParseLine` and `ColumnSelect` copies in src/mapper/map.hpp are the same code as in src/mapper/defs.hpp and share one model.
- `strtoul` is modelled as the C locale on a 64-bit `unsigned long`. That covers blank skipping, an optional sign, base 0 (a `0x` prefix, a leading `0` for octal), saturation at `ULONG_MAX` and negation modulo 2^64.
- `errno` is left out. The `try` around `strtoul` never catches anything.
- The XML tree is abstract (`MeshParser.Node`). `child`, `first_child`, `child_value` and `attribute` return the empty handle or empty text when something is absent, as pugixml does.
- The Arrow memory pool is a list of answers (`grants`) plus a byte counter. The statistics `printf` after the loop is left out.
- Concept and term parsing, and category and modifier decoding in the loader, are TODO in src/mesh/parser.cpp and are not modelled.
- `MeshProps` and `MeshTermAttr` are declared but never used, so they are left out.
- `ToString` is folded into `MeshDefs.Serialize`: ordinals are written in decimal.
- Results.PhraseShared: states one direction, that sharing a phrase implies the two node-data errors. `Results.NodeDataPhrase` states the other.
- src/mesh/records.hpp and src/mesh/fields.hpp are superseded snapshots of src/mesh/defs.hpp and src/common/result.hpp. They are not part of this model; fields.hpp spells the Term uid field "TermsUI".
- src/main.cpp, src/builder/document.cpp (beyond the policy set it instantiates), src/common/scope.hpp and src/common/utils.hpp are CLI, output and RAII glue, and are not part of this model.

## Findings

| source | as written | input that shows it | evidently intended | confidence | as-written member | corrected member |
|---|---|---|---|---|---|---|
| src/builder/policies.cpp:45-48 | with a MeSH document loaded, an MSH row is rejected when the document knows its code (`return mesh_doc->HasIdentifier(term)`) | an ENG, unsuppressed MSH row with code D012711 and a document knowing D012711 is rejected; with an empty document it is kept | keep MSH rows whose code the MeSH document knows and reject the unknown ones | not executed | Policies.KnownMeshCodeRejected | Policies.ConsoFilterIntendedKeeps |
| src/builder/policies.cpp:59 | `records.contains(RecordLookup{...})` takes the multimap's lower bound under the `uid ++ src ++ trg` comparison and tests that one entry. The multimap orders by `uid ++ src` and inserts equal keys in arrival order, so a uid+source run need not be target-sorted | rows (C1, SNOMEDCT_US, 200), (C1, SNOMEDCT_US, 100), (C1, SNOMEDCT_US, 100): the lower bound for the third row is the 200 entry, the lookup precedes it, and 100 is stored twice | refuse a row whenever an entry with the same (uid, source, target) is stored | not executed | Policies.LookupMissesStoredKey | Policies.ConsoCheckSpec |
| src/mapper/defs.hpp:60-68 | keys are compared as the concatenation `uid ++ src`, while `equal_range` on a uid (src/mapper/sct.hpp:108) compares uids alone | keys ("AB","A") and ("A","C"): "ABA" < "AC" puts the first key first, yet uid "A" < "AB", so a uid's entries need not be contiguous and the two orderings disagree | order keys by uid, then by source, so that each uid's entries form one run | not executed | Rows.KeyOrderSplitsUids | Rows.KeyLessByUidGroups |
| src/mapper/sct.hpp:108 | the consistency pass calls `equal_range(uid)` with the uid-only comparator on a multimap in `uid ++ src` order, which is not partitioned for a uid when another stored uid extends it | rows (C1, MSH, D01), (C1, SNOMEDCT_US, 100), (C12, MSH, D02): key order is C12MSH, C1MSH, C1SNOMEDCT_US, and the C1 entries after the C12 entry precede "C12", so the range for C12 need not hold its entry and the unpaired C12 record can survive | each uid's group is exactly its entries, as under uid-then-source order | not executed | Xref.UidRangeUnpartitioned | Xref.GroupsContiguous |
