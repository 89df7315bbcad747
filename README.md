# cdat in Dafny

This project models the core of cdat, a codec for the "DAT" object container used by HSD/Melee tooling, and proves properties of that model.

A DAT file has a 32-byte big-endian header. It holds the file size, the data size and the counts of relocations, roots and extern references, followed by 12 zero bytes. After the header come five sections:
- the object data;
- the relocation list: the offsets of the data words that hold pointers;
- the root table and the extern-reference table, each a list of (data offset, symbol offset) pairs;
- the symbol table of NUL-terminated names.

The repository implements the format twice. Both are modelled:

- **The Rust codec** (`src/lib.rs`).
  - `RsFormat` holds its values and the pure specification: import as a function `ImportOf` with every error and panic, export as `ExportOf`, the two round trips, allocation and the symbol table.
  - `RelocBitmap` models the relocation bitmap of 64-bit chunks as a sequence of 64-element boolean chunks. It relates the bitmap to the sorted offset list that export writes.
  - `RsDatFile` holds the `DatFile` object as a class whose methods change its fields, and the loops of import and export as methods, each proved equal to the specification function.
- **The C library** (`src/dat.c`, `src/dat.h`).
  - `CFormat` holds the specification:
    - the sorted, duplicate-free relocation table kept by binary search and insertion;
    - the object-start table built by import;
    - roots with indexed insert, remove and lookup by name;
    - object location;
    - the export image with its import round trip;
    - the `dat_obj_*` bounds checks.
  - `CDatFile` holds the C `DatFile` as a class. Its buffers are sequence fields whose lengths are the count fields. Every `dat_*` operation is a method with its error codes, proved against `CFormat`.
  - `CDatTests` replays the scenarios of `src/tests.c` on the model and proves that the values that program expects are the ones the operations produce.
- **The helpers.**
  - `Bytes` holds the big-endian `READ_U16/U32` and `WRITE_U16/U32` accessors of `src/dat.h` and `src/lib.rs`, and NUL-terminated strings.
  - `Utils` holds `read_lines`, `my_stpcpy`, `inner_name` and `path_join` of `src/utils.h`.
  - `CommandLine` holds `read_args`.
  - `Hmex` holds `match_section_name`, `copy_arg`, `copy_args` and the `MEXReloc` word packing of `src/hmex.c`.
  - `LinkTable` holds the `melee.link` parser of `src/hmex.c`, extracted into a function. It is proved against an independent line-by-line definition.
  - `Wrappers` holds `Option` and `Result`.

**Modelling conventions**
- Integers are unbounded. Every place where the source's 32-bit width matters is written out: `u32`/`u16` subset types, `Trunc32` for `as u32`, `% 2^32` for the link-table address, and `bv32` for the `MEXReloc` packing.
- The header sums of import and export, which the source computes in `u32`, are computed as `nat`, and the model asks for them to stay below 2^32 (each such precondition is listed under "Left out"). The `dat_obj_*` bounds checks and `dat_obj_alloc` compute in `u32` as the source does, through `Trunc32`.
- The Rust panics become a `DatError.Panic` failure where the error can be returned (`import`). For the mutators and accessors (RefSet, RefRemove, RefCheck, SymbolAdd, SymbolRead, ReadU32, ReadU16, WriteU32, WriteU16) they are preconditions, because a panic there would end the program.
- Where the C code trusts its input without checking it (the section extents of a DAT file, the presence of a relocation being removed), the trust is a precondition.
- The same relation between code and specification holds throughout. Each loop the source has is a `method` with a `while` loop. Its `ensures` ties the result to a specification function, and the properties are lemmas about that function.

## Model

| member | source | states |
|---|---|---|
| Bytes.BE32RoundTrip | src/lib.rs:33-40 | reading back the four big-endian bytes pushed for `n` gives `n` |
| Bytes.ReadU32Bytes | src/dat.h:24-27 | the value read at `at` is the one whose big-endian bytes are the four bytes stored there |
| Bytes.WriteThenReadU32 | src/dat.h:26-31 | `WRITE_U32` then `READ_U32` at the same place yields the value written |
| Bytes.WriteU32Apart | src/lib.rs:43-45 | a 4-byte write leaves every word that does not overlap it unchanged |
| Bytes.WriteStoredU32 | src/lib.rs:33-45 | writing back the value just read changes nothing |
| Bytes.BE16RoundTrip | src/lib.rs:48-55 | two big-endian bytes read back as the u16 written |
| Bytes.ReadU16Bytes | src/dat.h:24 | the u16 read is the one whose big-endian bytes are stored there |
| Bytes.WriteThenReadU16 | src/dat.h:24-29 | `WRITE_U16` then `READ_U16` round-trips |
| Bytes.NulFrom | src/lib.rs:275-276 | the position of the first NUL at or after `at`: a NUL, with no NUL between |
| Bytes.CString | src/dat.c:466-470 | the bytes from `at` up to, not including, the first NUL after it |
| RelocBitmap.SetRefSpec | src/lib.rs:220-233 | after setting the bit of `at`, checking `at` is true and every other word's check is unchanged |
| RelocBitmap.RemoveRefSpec | src/lib.rs:236-248 | after clearing the bit of `at`, checking `at` is false and every other word's check is unchanged |
| RelocBitmap.MarkBits | src/lib.rs:89 | OR-ing a bit in marks exactly that word and keeps every other mark |
| RelocBitmap.UnmarkBits | src/lib.rs:247 | clearing a bit unmarks exactly that word and keeps every other mark |
| RelocBitmap.DecodeFails | src/lib.rs:80-90 | decoding a relocation list fails (the indexing panic) iff some offset's chunk is past the bitmap |
| RelocBitmap.DecodeBits | src/lib.rs:84-90 | a decoded bitmap marks a word iff some listed offset lies in that word, so duplicates collapse |
| RelocBitmap.TargetsMembers | src/lib.rs:166-175 | the offsets export writes are exactly the 4-aligned offsets whose bit is set |
| RelocBitmap.TargetsIncreasing | src/lib.rs:166-175 | the offsets export writes are strictly ascending (hence duplicate-free) |
| RelocBitmap.TargetsCount | src/lib.rs:129-135 | the number of offsets written is the total popcount of the bitmap |
| RelocBitmap.IncreasingUnique | src/lib.rs:166-175 | two strictly ascending lists with the same members are equal |
| RelocBitmap.DecodeTargets | src/lib.rs:80-90 | decoding the list that export writes gives back the bitmap |
| RelocBitmap.TargetsDecode | src/lib.rs:84-90 | a strictly ascending, 4-aligned list that decodes without panicking is written back by export as the same list |
| RelocBitmap.CeilDiv | src/lib.rs:80 | the least chunk count whose chunks cover `n` bytes |
| RsFormat.ImportOf | src/lib.rs:58-127 | on success the header size equals the input length, every section fits, data is the bytes after the header, symbols are the bytes after the tables, and roots and extern refs are the stored pairs |
| RsFormat.ImportRejectsHeader | src/lib.rs:59-69 | an input shorter than 0x20 bytes, or whose header size differs from its length, is `InvalidFile` |
| RsFormat.ImportPanicsOnData | src/lib.rs:75 | a data size running past the input panics before any extent check |
| RsFormat.ImportRejectsRelocations | src/lib.rs:83 | a relocation table running past the file is `InvalidFile` |
| RsFormat.ImportPanicsOnRelocation | src/lib.rs:89 | an offset whose chunk lies beyond the bitmap panics |
| RsFormat.ImportRejectsRoots | src/lib.rs:97 | a root table running past the file is `InvalidFile` |
| RsFormat.ImportRejectsRefs | src/lib.rs:110 | an extern-ref table running past the file is `InvalidFile` |
| RsFormat.ImportRejectsExtent | src/lib.rs:83-121 | once the data fits, any section running past the file makes import fail |
| RsFormat.ImportFits | src/lib.rs:58-127 | import succeeds iff the sections parse and the header size is the length, and then yields the parsed value |
| RsFormat.ExportLength | src/lib.rs:138-150 | the output length is 0x20 + data + 4·popcount + 8·roots + 8·refs + symbols, and the header's size field (when it fits in u32) is that length |
| RsFormat.ExportHeader | src/lib.rs:150-158 | the header holds the data size, popcount, root count and ref count, then 12 zero bytes |
| RsFormat.ExportSections | src/lib.rs:162-193 | each section of the output reads back as the data, relocation list, roots, refs and symbols |
| RsFormat.ExportRelocations | src/lib.rs:166-175 | the relocation list written is the set bits' offsets, strictly ascending and 4-aligned |
| RsFormat.ImportExport | src/lib.rs:58-196 | `import(export(d)) == d` when the bitmap has `ceil(|data|/256)` chunks and the size fits in u32 |
| RsFormat.ExportImport | src/lib.rs:84-175 | `export(import(f)) == f` when `f`'s relocation list is strictly ascending and 4-aligned and header bytes 20..32 are zero |
| RsFormat.AllocAligned | src/lib.rs:208-217 | on a 4-aligned buffer, `object_alloc` returns the old length and appends exactly `size` zero bytes |
| RsFormat.AllocTruncates | src/lib.rs:209-212 | a 9-byte buffer is cut to 5 bytes and the offset returned, 5, is unaligned |
| RsFormat.AlignedAllocSpec | src/lib.rs:208-217 | padding to the next multiple of 4 keeps the old bytes, returns an aligned offset within 3 bytes of the end, and appends `size` zeros |
| RsFormat.SymbolRead | src/lib.rs:274-280 | a read returns the ASCII bytes up to the first NUL at or after `at`, and fails only when they are not ASCII |
| RsFormat.SymbolAddRead | src/lib.rs:263-280 | after adding an ASCII name without NUL, reading at the returned offset gives the name back |
| RsFormat.SymbolAddTwice | src/lib.rs:263-269 | adding `s` grows the table by `|s|+1` when `s` is empty or its last byte is not NUL (interior NULs included), by `|s|` when it ends in NUL, and keeps the old bytes |
| RsDatFile.ImportValue | src/lib.rs:58-127 | the imperative import returns exactly `ImportOf(file)` |
| RsDatFile.DecodeRelocations | src/lib.rs:80-90 | the bit-OR loop over the relocation list gives the decoded bitmap, or the panic |
| RsDatFile.ReadTable | src/lib.rs:98-116 | the root or extern-ref loop reads the stored pairs in order |
| RsDatFile.PushWords | src/lib.rs:38-40 | pushing u32 values appends their big-endian bytes |
| RsDatFile.PushChunk | src/lib.rs:169-174 | the inner bit loop appends the offsets of the chunk's set bits in bit order |
| RsDatFile.PushRelocations | src/lib.rs:166-175 | the relocation loop appends the words of the bitmap's target list |
| RsDatFile.PushTable | src/lib.rs:179-189 | a table loop appends each pair's two words |
| RsDatFile.DatFile.Value | src/lib.rs:17-23 | the five buffers as a value |
| RsDatFile.DatFile.constructor | src/lib.rs:198-206 | `new` holds five empty buffers |
| RsDatFile.DatFile.Import | src/lib.rs:58-127 | fails exactly as `ImportOf` with the same error, otherwise holds its value |
| RsDatFile.DatFile.CountRelocationEntries | src/lib.rs:129-135 | the count is the popcount summed over the chunks |
| RsDatFile.DatFile.Export | src/lib.rs:137-196 | always succeeds with the bytes of `ExportOf` |
| RsDatFile.DatFile.ObjectAlloc | src/lib.rs:208-217 | data and offset become those of `object_alloc` as written; no other buffer changes |
| RsDatFile.DatFile.RefSet | src/lib.rs:220-233 | stores `to` big-endian at `at` and sets `at`'s bit, growing the bitmap; the other buffers are unchanged |
| RsDatFile.DatFile.RefRemove | src/lib.rs:236-248 | clears `at`'s bit, growing the bitmap, and leaves data untouched |
| RsDatFile.DatFile.RefCheck | src/lib.rs:251-260 | true iff `at`'s bit is set, false past the bitmap |
| RsDatFile.DatFile.SymbolAdd | src/lib.rs:263-269 | appends the name and, unless it ends in NUL, a NUL; returns the old length |
| RsDatFile.DatFile.SymbolRead | src/lib.rs:274-280 | the stored ASCII name at `at`, without its NUL |
| RsDatFile.DatFile.ReadU32 | src/lib.rs:285-288 | the word whose big-endian bytes are at `at` |
| RsDatFile.DatFile.WriteU32 | src/lib.rs:291-294 | the data with `n` stored big-endian at `at`; nothing else changes |
| RsDatFile.DatFile.ReadU16 | src/lib.rs:297-300 | the half-word whose big-endian bytes are at `at` |
| RsDatFile.DatFile.WriteU16 | src/lib.rs:303-306 | the data with `n` stored big-endian at `at`; nothing else changes |
| CFormat.SortBy | src/dat.c:80-110 | the `qsort` calls: an ordering by key that is a permutation of the input |
| CFormat.InsertBy | src/dat.c:11-19 | inserting into a sorted table keeps it sorted and adds exactly the element |
| CFormat.SortedUnique | src/dat.c:80 | two sorted tables with the same multiset are equal, so the sorting of the relocation table is determined |
| CFormat.DedupSorted | src/dat.c:138-149 | on sorted starts the dedup loop keeps each distinct value once, strictly ascending, unless all are the `0xFFFFFFFF` sentinel |
| CFormat.DedupDistinct | src/dat.c:138-149 | when the least value is not the sentinel, every value is kept and `last_ref` ends as the last one |
| CFormat.DedupAllNoRef | src/dat.c:138-140 | a table of nothing but the sentinel keeps nothing |
| CFormat.ObjectStarts | src/dat.c:125-149 | the object table is strictly ascending, holds only gathered values, and holds all of them unless all are the sentinel |
| CFormat.ObjectStartsOf | src/dat.c:125-149 | deduplicating any sorted permutation of the gathered values gives that object table |
| CFormat.RankSplits | src/dat.c:619-634 | every element before the rank is below `x`, every one from it on is not |
| CFormat.RankIs | src/dat.c:619-634 | an index splitting a sorted table at `x` is its rank |
| CFormat.WithRef | src/dat.c:313-330 | setting a reference keeps the table sorted, holds exactly the old members and `from`, and adds a copy only when `from` is absent |
| CFormat.WithoutRef | src/dat.c:341-347 | removing a present reference removes one copy and keeps the rest in order |
| CFormat.SetThenRemove | src/dat.c:307-347 | removing a freshly set reference restores the table |
| CFormat.RemoveThenSet | src/dat.c:307-347 | setting a just-removed reference restores a strictly sorted table |
| CFormat.SetRefCommutes | src/dat.c:307-335 | setting twice is setting once, and two sets commute |
| CFormat.WithRefAppends | src/dat.c:313-330 | a reference above all others is appended |
| CFormat.WithoutRefAt | src/dat.c:341-347 | removing `s[k]` from a strictly sorted table deletes index `k` |
| CFormat.SearchFinds | src/dat.c:619-634 | on a sorted table, searching a window that holds a copy of `ref` reports an index holding `ref` |
| CFormat.SearchRanks | src/dat.c:619-634 | on a sorted table without `ref`, searching a window with smaller entries left of it and larger right of it reports the rank of `ref` |
| CFormat.SearchIs | src/dat.c:619-634 | `binary_search_refs` on a sorted table: an index of `ref` if present, its insertion index otherwise |
| CFormat.LastAtMost | src/dat.c:483-509 | the last object start at most `ptr`, or -1 when all are above it |
| CFormat.ObjectAt | src/dat.c:483-509 | none iff every start is above `ptr`; else the slice from that start to the next start or the data end |
| CFormat.ObjectAtContains | src/dat.c:483-509 | on a strictly sorted table the found slice contains `ptr` and is the largest start at most `ptr` |
| CFormat.ObjectAtFails | src/dat.c:483-509 | not found iff there are no objects or the first start is above `ptr` |
| CFormat.LocatedIndex | src/dat.c:483-498 | the index `dat_obj_location` settles on holds a start at most `ptr`, or is -1 |
| CFormat.Location | src/dat.c:483-509 | what `dat_obj_location` reports on any table; a reported start is one of the starts and at most `ptr` |
| CFormat.LocatedIndexSorted | src/dat.c:483-498 | on sorted starts the located index is -1 iff `LastAtMost` is, is at or before it, and holds the same start |
| CFormat.LocationSorted | src/dat.c:483-509 | on sorted starts the lookup fails iff `ObjectAt` does, reports `ObjectAt`'s start, and its slice is `ObjectAt`'s or empty (a duplicated start) |
| CFormat.LocationStrict | src/dat.c:483-509 | on strictly ascending starts the lookup is exactly `ObjectAt` |
| CFormat.LocationOnDuplicates | src/tests.c:30-34 | with the starts `[0, 256, 292, 292]` of the allocation scenario, looking up 292 reports the empty object `{292, 0}`, not the 8-byte one |
| CFormat.FirstNamed | src/dat.c:459-481 | the index of the first root whose name equals `name`; all before it differ |
| CFormat.FindRoot | src/dat.c:459-481 | the data offset of the first root with that name, or none when no root has it |
| CFormat.RootAddFinds | src/dat.c:408-442 | after inserting a root under a name no root has yet, looking the name up finds the new root's object |
| CFormat.RootAddKeeps | src/dat.c:408-442 | inserting a root leaves the lookup of every other name unchanged |
| CFormat.FirstNamedShifts | src/dat.c:408-442 | the first root named otherwise is the same root as before, at its index shifted past the insertion |
| CFormat.RemoveInsertedRoot | src/dat.c:408-457 | removing the root just inserted at `index` restores the table |
| CFormat.ExportImage | src/dat.c:164-209 | the export image's length is `dat_file_export_max_size` |
| CFormat.ExportImageHeader | src/dat.c:169-173 | the header holds the file size (the image length), the data size and the three counts, then zero bytes 20..32 |
| CFormat.ExportImageRelocations | src/dat.c:181-186 | the relocation section reads back as the table |
| CFormat.ExportImportable | src/dat.c:41-152 | an export image satisfies what import trusts, and its sections start where its header says |
| CFormat.ExportImport | src/dat.c:41-209 | importing an export image gives the same data and symbols and each table up to order |
| CFormat.ExportImportTargets | src/dat.c:78-80 | a sorted relocation table comes back exactly |
| CFormat.AlignForward | src/dat.c:21-25 | the least multiple of a power-of-two alignment at or above `ptr`; `ptr` itself when aligned |
| CFormat.AlignedTo4 | src/dat.c:283-290 | `align_forward(ptr, 4)` is a 4-aligned offset at most 3 above `ptr` |
| CFormat.AsWrittenAdmitsOverrun | src/dat.c:356-363 | `ptr = 0xFFFFFFFC` passes the check on 8 bytes of data although it reads past them |
| CFormat.OverrunExactlyAtWrap | src/dat.c:307-406 | for an aligned access the u32 check passes while the access lies past the data exactly when `ptr + width` is 2^32 |
| CFormat.InBoundsAgrees | src/dat.c:307-406 | the u32 check agrees with the real bound whenever the sum does not wrap; whatever it admits beyond the real bound wraps, and the real bound rejects every wrapping access |
| CDatFile.BinarySearchRefs | src/dat.c:619-634 | the index `Search` gives on any table; on an ascending table an index of `ref` if present, otherwise its insertion index (its rank) |
| CDatFile.SearchLoop | src/dat.c:619-634 | the probe loop returns the index of the search as written, `Search` |
| CDatFile.ReadTargets | src/dat.c:75-79 | the relocation table read out of the file, word by word |
| CDatFile.ReadInfoTable | src/dat.c:84-109 | a root or extern table read out of the file, pair by pair |
| CDatFile.GatherObjects | src/dat.c:125-135 | the words at the relocation targets, then the root offsets, then the extern offsets |
| CDatFile.Dedup | src/dat.c:138-149 | the two-index loop gives the deduplication of `DedupScan` |
| CDatFile.FindObjects | src/dat.c:125-149 | the object table of the gathered values |
| CDatFile.ImportFile | src/dat.c:66-149 | sections copied, tables sorted permutations of the stored ones, object table as `ObjectTable` says |
| CDatFile.NameIs | src/dat.c:466-477 | the byte-by-byte `strcmp` loop is true iff the stored name equals `name` |
| CDatFile.DatFile.Sections | src/dat.h:66-83 | the buffers of the struct as a value |
| CDatFile.DatFile.constructor | src/dat.c:211-215 | `dat_file_new` empties every buffer |
| CDatFile.DatFile.Import | src/dat.c:41-152 | `DAT_ERR_INVALID_SIZE` iff the header size exceeds the buffer, with every buffer emptied; otherwise success with the imported sections |
| CDatFile.DatFile.ExportMaxSize | src/dat.c:154-162 | header plus every section's size |
| CDatFile.DatFile.Export | src/dat.c:164-209 | writes exactly `dat_file_export_max_size` bytes, the export image, and leaves the rest of the buffer alone |
| CDatFile.DatFile.RelocIdx | src/dat.c:279-281 | the search's index; on a sorted table the matching index or the insertion index |
| CDatFile.DatFile.ObjAlloc | src/dat.c:283-305 | returns `align_forward(data_size, 4)` and appends it to `objects`; the data size becomes the u32 sum of that offset and `size`, which without wrap-around is 4-aligned, at most 3 past the old data, with the old bytes kept; a wrapped size truncates the data |
| CDatFile.DatFile.SetRef | src/dat.c:307-335 | `INVALID_ALIGNMENT` for a misaligned `from`, `OUT_OF_BOUNDS` when the u32 sum `from+4` exceeds the data size or `to` is past the data, nothing changed on error; else `from` added to the sorted table and `to` stored at it |
| CDatFile.DatFile.RemoveRef | src/dat.c:337-350 | for a present `from`, the table without it, in order; data unchanged |
| CDatFile.DatFile.ReadU32 | src/dat.c:352-363 | alignment error, bounds error exactly when the u32 sum `ptr+4` exceeds the data size, or the big-endian word at `ptr`, which lies inside the data |
| CDatFile.DatFile.ReadU16 | src/dat.c:365-372 | alignment error, bounds error exactly when the u32 sum `ptr+2` exceeds the data size, or the big-endian half-word |
| CDatFile.DatFile.ReadU8 | src/dat.c:374-380 | bounds error exactly when the u32 sum `ptr+1` exceeds the data size, or the byte |
| CDatFile.DatFile.WriteU32 | src/dat.c:382-389 | on success the data with the word stored, otherwise unchanged, with the same u32 checks as the read |
| CDatFile.DatFile.WriteU16 | src/dat.c:391-398 | as `WriteU32` for a half-word |
| CDatFile.DatFile.WriteU8 | src/dat.c:400-406 | as `WriteU32` for a byte, without alignment |
| CDatFile.DatFile.RootAdd | src/dat.c:408-442 | misaligned object or index past the count is an error changing nothing; else the name and a NUL appended and the root inserted at `index` |
| CDatFile.DatFile.RootRemove | src/dat.c:444-457 | `OUT_OF_BOUNDS` for an index past the end; else the root deleted, others in order |
| CDatFile.DatFile.RootFind | src/dat.c:459-481 | success iff a root has that name, with the first such root's offset; otherwise `DAT_NOT_FOUND` |
| CDatFile.DatFile.ObjLocation | src/dat.c:483-509 | `Location` on any table; on sorted starts `DAT_NOT_FOUND` iff no start is at most `ptr`, else `ObjectAt`'s start with its size or, for a duplicated start, size 0; on strictly ascending starts exactly `ObjectAt` |
| CDatFile.LocateIndex | src/dat.c:485-498 | the search and the two steps back give `LocatedIndex` |
| CDatTests.AllocateObjects | src/tests.c:23-41 | allocating 256, 33, 0 and 8 bytes gives offsets 0, 256, 292, 292 and four objects |
| CDatTests.RootNames | src/tests.c:55-71 | the names added in the order root2, root3, root1 read back at symbol offsets 0, 6 and 12 |
| CDatTests.AddRemoveRoots | src/tests.c:43-85 | roots added at indices 0, 1, 0 end as root1, root2, root3; removing index 1 leaves root1, root3 |
| CDatTests.AllocateRoots | src/tests.c:52-54 | the three root objects start at 300, 428 and 556 |
| CDatTests.AddRoots | src/tests.c:55-71 | the three insertions give the expected root table |
| CDatTests.ThreeRefs | src/tests.c:98-104 | three ascending set refs give a table in that order |
| CDatTests.DropMiddle | src/tests.c:117-120 | removing the middle reference keeps the outer two |
| CDatTests.ThreeWrites | src/tests.c:98-113 | three disjoint word writes each read back |
| CDatTests.References | src/tests.c:87-127 | the references scenario gives targets [684, 752, 756] reading 748, 812, 876, then [684, 756] |
| CDatTests.AllocateRefs | src/tests.c:92-96 | four 64-byte objects at 684, 748, 812 and 876 |
| CDatTests.SetRefs | src/tests.c:98-104 | the three set refs give the expected table |
| CDatTests.ReadRefs | src/tests.c:107-113 | each `dat_obj_read_ref` returns the stored word |
| CDatTests.RunTests | src/tests.c:14-127 | the first three scenarios in order produce the expected values |
| Utils.CountLines | src/utils.h:173-181 | the line count: the newlines plus one if the last byte is not a newline |
| Utils.ReadLines | src/utils.h:169-209 | a table of `line_count + 1` slots, the lines in order, then NULL; an empty file gives only NULL |
| Utils.FillLines | src/utils.h:184-205 | the fill loop stores each line in its slot |
| Utils.ScanLine | src/utils.h:190-196 | the line runs to the next newline or the end |
| Utils.LinesCount | src/utils.h:173-181 | the lines are as many as the count |
| Utils.LinesFromCount | src/utils.h:173-205 | the lines from a point are the newlines after it plus the unterminated last one |
| Utils.JoinLines | src/utils.h:187-205 | joining the lines with newlines, plus a final newline if the file has one, gives back the file |
| Utils.LinesHaveNoNewline | src/utils.h:190-200 | no line holds a newline |
| Utils.StpCpy | src/utils.h:293-302 | copies the string and its NUL, returns the NUL's position, and changes nothing past it |
| Utils.NameStart | src/utils.h:312-318 | the position after the last `/` or `\`: no separator from there on |
| Utils.LastPeriod | src/utils.h:320-326 | the last period after the name's first character, or 0 |
| Utils.InnerName | src/utils.h:310-335 | the loops give the name without directories and extension |
| Utils.FindNameStart | src/utils.h:312-318 | the separator loop gives `NameStart` |
| Utils.FindPeriod | src/utils.h:320-326 | the period loop gives `LastPeriod` |
| Utils.InnerNameParts | src/utils.h:310-335 | the name follows the last separator, holds none, and ends at the end or at a period with no period after it |
| Utils.InnerNameCuts | src/utils.h:310-335 | the cut is at the last separator, and every period past the name's first byte is at or before the end of the name |
| Utils.JoinFits | src/utils.h:339-350 | the joined path fits the length `path_join` allocates |
| Utils.JoinIsCString | src/utils.h:350-362 | the joined path holds no NUL |
| Utils.JoinSeparates | src/utils.h:355-361 | with non-empty parts not ending in the separator, exactly one separator between each two |
| Utils.JoinLength | src/utils.h:339-348 | the counting loop gives the length of all parts plus one per later part |
| Utils.PathJoin | src/utils.h:337-365 | a buffer of that length plus one holding the joined path and its NUL |
| Utils.AppendPart | src/utils.h:355-361 | a separator unless the text is empty or ends with one, then the part |
| CommandLine.ReadArgs | src/utils.h:228-290 | the argument loop gives `ArgsFrom` from `argv[1]` |
| CommandLine.StepArg | src/utils.h:235-288 | one argument, as `Step` |
| CommandLine.FindNoArg | src/utils.h:239-246 | the first no-argument flag with that name, or none |
| CommandLine.FindName | src/utils.h:261-263 | the first multi-argument flag with that name, or none |
| CommandLine.ScanSingles | src/utils.h:248-259 | the single-argument loop as `SingleScan` |
| CommandLine.TakeLoop | src/utils.h:267-279 | the take-while loop as `TakeInputs` |
| CommandLine.StepFlags | src/utils.h:239-246 | one argument keeps every flag bit set and adds only no-argument flags' bits |
| CommandLine.NoArgSetsBit | src/utils.h:239-246 | an argument equal to a no-argument flag's name ORs the first such flag's bit into the flag word, changes nothing else and moves to the next argument |
| CommandLine.ArgsFlags | src/utils.h:235-290 | the whole reading ORs in only no-argument flags' bits |
| CommandLine.TakeInputsFill | src/utils.h:267-279 | a multi-argument flag takes following arguments up to the first starting with `-`, stores them while under 512, and warns once for each skipped one |
| CommandLine.ArgsBounded | src/utils.h:264-275 | no table grows past `MAX_INPUT_FILES` |
| CommandLine.UnknownOnlyWarns | src/utils.h:285-286 | an argument naming no flag only adds an "unknown flag" message |
| CommandLine.SingleTakesNext | src/utils.h:248-257 | a single-argument flag followed by an argument stores it in the first flag of that name |
| CommandLine.SingleMissingWarnsTwice | src/utils.h:251-252 | a single-argument flag given last is reported missing and then unknown |
| CommandLine.RepeatedFlagLosesInputs | src/utils.h:264 | a multi-argument flag given twice loses its first inputs and leaves a counted slot unwritten |
| CommandLine.CorrectedKeepsInputs | src/utils.h:261-283 | keeping the table, every reading extends each table and leaves no counted slot unwritten |
| Hmex.MatchSectionName | src/hmex.c:277-293 | true iff the section name is `.text.` followed by the symbol |
| Hmex.QuotedParts | src/hmex.c:255-262 | the text is quoted; an already quoted argument is unchanged; otherwise it is the argument between two double quotes |
| Hmex.QuotedIdempotent | src/hmex.c:255-262 | quoting a quoted argument changes nothing |
| Hmex.CopyArg | src/hmex.c:253-265 | given room for the quoted argument, a space and a NUL, writes exactly those after `cur` and returns the position of the NUL |
| Hmex.CopyArgs | src/hmex.c:268-275 | writes the argument as it is and a space, and returns the NUL's position |
| Hmex.RelType | src/hmex.c:248 | the relocation type is the low byte of `r_info` |
| Hmex.PackedFields | src/hmex.c:617-620 | the packed word's high byte is the type ORed with the offset's high byte; its low three bytes are the offset's |
| Hmex.PackedRoundTrip | src/hmex.c:155-157 | below 2^24 the type and the offset both come back out |
| Hmex.PackedTypeExactly | src/hmex.c:617-620 | the high byte reads back as the type iff the offset sets no high bit the type lacks; offset 2^24 with type 0 reads back 1 |
| LinkTable.ScanAddressLoop | src/hmex.c:363-382 | the address loop accumulates hex digits of either case modulo 2^32 until `:` and flags any other byte |
| LinkTable.ScanSymbolLoop | src/hmex.c:385-403 | the symbol loop copies up to `\r` or `\n`, consuming a `\r` as the line end |
| LinkTable.ParseEntry | src/hmex.c:361-420 | one turn of the line loop as `ParseTurn` |
| LinkTable.ParseLinkTable | src/hmex.c:345-420 | the parser's entries, packed symbols and warnings are those of `LinkTableAsWritten` |
| LinkTable.AsWrittenEntriesValid | src/hmex.c:405-416 | every entry stored has a non-empty symbol and an address at least 0x80000000 |
| LinkTable.ErrorSticks | src/hmex.c:360 | once `err` is set no further entry is stored |
| LinkTable.ScanIsHex | src/hmex.c:363-382 | over a run of hex digits the loop yields their value mod 2^32, and stops past a `:` or errs on any other byte |
| LinkTable.EntriesOfAppend | src/hmex.c:361-420 | the entries of two runs of lines are those of each, in order |
| LinkTable.MalformedLineSkipped | src/hmex.c:405-416 | with the error reset per line, a malformed line drops only itself |
| LinkTable.EntriesOfValid | src/hmex.c:405-416 | every line-by-line entry is valid, and the symbols fit in the lines' bytes |
| LinkTable.LinkTableValid | src/hmex.c:405-416 | every corrected entry is valid |
| LinkTable.LinkTableFits | src/hmex.c:345-353 | the corrected entries fit `newlines + 1` slots and their symbols fit `lt_size` bytes |
| LinkTable.AgreesOnWellFormedFiles | src/hmex.c:345-420 | on a file of well-formed lines whose `\r` end lines, the code's entries, symbols and (empty) warnings are the line-by-line ones |
| LinkTable.StickyErrorDropsEntries | src/hmex.c:360 | a bad first line drops a good second line as written, but not line by line |
| LinkTable.CarriageReturnOverflowsTable | src/hmex.c:345-350 | a file with no newline, split by `\r` into two entries, stores two entries in a one-slot table |
| LinkTable.MalformedLineOverflowsSymbols | src/hmex.c:353-403 | the one-byte file `X` writes two bytes into a one-byte symbol buffer |

## Left out

- `realloc_arr` (src/dat.c:27-39), the capacity fields and the pre-allocation constants: buffers are sequences that grow, so allocation failure (`DAT_ERR_ALLOCATION_FAILURE`) is not modelled.
- `DAT_ERR_NULL_PARAM`: the model's objects always exist, so the NULL-parameter checks of every `dat_*` function have no counterpart.
- `dat_file_destroy` is not modelled, because it only frees memory.
- `dat_file_debug_print` is not modelled, because it only prints.
- `dat_return_string` is not modelled, because it is a constant table of messages.
- `dat_obj_copy` / `dat_obj_copy_inner` (src/dat.c:511-595) are not modelled. Their recursion bounds itself by a buffer sized from `object_count` that interior pointers can overflow, so they have no terminating specification to prove against.
- `dat_obj_read_ref` is `dat_obj_read_u32` (src/dat.c:352-354) and is modelled by `CDatFile.DatFile.ReadU32`.
- CDatFile.DatFile.Import: requires a buffer of at least the 32 header bytes, because the code reads the five header words (src/dat.c:48-52) without checking `buffer_size`, and a shorter buffer is read out of bounds.
- CDatFile.DatFile.Import: requires the section extents and relocation targets that the code reads without checking (`Importable`) whenever the size check passes, because the code's behaviour beyond them is out-of-bounds memory access.
- CDatFile.DatFile.Export: requires the export size to fit in u32. The header sums in `dat_file_export_max_size` wrap beyond that, and the model computes them as naturals.
- CDatFile.DatFile.RemoveRef: requires an aligned `from` to be present. Otherwise the code deletes a neighbour, or underflows on an empty table.
- CDatFile.DatFile.RootAdd: requires the name to hold no NUL. A C string cannot hold one.
- CDatFile.DatFile.RootAdd: requires the symbol table with the new name and its NUL to stay below 2^32 bytes. Beyond that `symbol_end` (src/dat.c:416) wraps, no buffer growth happens, and `strcpy` writes past the buffer.
- CDatFile.DatFile.RootFind: requires every root's name to be NUL-terminated inside the symbol table (`NamesTerminated`). The code compares names without checking this, and for an imported table that breaks it, reads past the buffer.
- CDatFile.DatFile.ObjAlloc: requires the object table to stay below 2^32 - 1 entries, because `object_count` is a u32 the code increments unchecked. Capacities are not modelled. So the model does not capture that the code grows `objects` with element size 1 (src/dat.c:296), allocating a quarter of the bytes the capacity it records counts.
- CDatFile.DatFile.SetRef: requires an aligned `from` with an in-range `to` not to be 0xFFFFFFFC. There `from+4` wraps to 0, passes the u32 check (`CFormat.OverrunExactlyAtWrap`), and the code writes outside the buffer.
- CDatFile.DatFile.ReadU32: requires an aligned `ptr` not to be 0xFFFFFFFC, where the u32 check passes and the code reads outside the buffer. `dat_obj_read_ref` is the same function.
- CDatFile.DatFile.ReadU16: requires an aligned `ptr` not to be 0xFFFFFFFE, for the same reason.
- CDatFile.DatFile.ReadU8: requires `ptr` not to be 0xFFFFFFFF, for the same reason.
- CDatFile.DatFile.WriteU32: requires an aligned `ptr` not to be 0xFFFFFFFC, where the u32 check passes and the code writes outside the buffer.
- CDatFile.DatFile.WriteU16: requires an aligned `ptr` not to be 0xFFFFFFFE, for the same reason.
- CDatFile.DatFile.WriteU8: requires `ptr` not to be 0xFFFFFFFF, for the same reason.
- The `dat_*` methods that need it require the data buffer to be shorter than 2^32 bytes, since `data_size` is a u32.
- RsDatFile.DatFile.RefSet: requires `at` to be aligned and in range, where the Rust code panics instead. The same holds for RefRemove's alignment and for the aligned accessors.
- RsDatFile.DatFile.RefCheck: requires `at` to be 4-aligned, where the Rust code panics (src/lib.rs:252).
- RsDatFile.DatFile.SymbolRead: requires `at` to be within the table and followed by a NUL, where the Rust code panics on the slice or the `unwrap` (src/lib.rs:275-276).
- RsDatFile.DatFile.SymbolAdd: requires the name to be ASCII, where the Rust code panics (src/lib.rs:264).
- RsDatFile.DatFile.Export: requires the bitmap to hold at most `MAX_CHUNKS` chunks (`Valid`), as do CountRelocationEntries. `new`, `import`, `ref_set` and `ref_remove` keep that bound, but a struct literal (`Of`; the fields are public) with a longer bitmap is outside the model: there `(i*64 + b)*4` (src/lib.rs:171) overflows u32.
- u32 wrap-around of the Rust header sums (src/lib.rs:81-83): the extents are computed as naturals, so a header whose sums wrap is rejected by the model rather than read as the wrapped value.
- Rust `symbol_read`: the UTF-8 decoding is reduced to the ASCII test, because an ASCII string is valid UTF-8 and the result is `None` for anything else.
- `PATH_SEPARATOR` is a parameter of `Utils.PathJoin`, because it depends on the platform.
- `read_args` writes through pointers and prints to stderr. The model returns what it writes, and the messages without their text.
- The meaning of the link parser's warning text, its `line` number format, and reading the file from disk are left out; the warnings are the line numbers.
- The link table and its symbol buffer are growing sequences. The overflow of the fixed-size C buffers is shown by `LinkTable.CarriageReturnOverflowsTable` and `LinkTable.MalformedLineOverflowsSymbols`, not reproduced.
- hmex.c's `main`, `parse_args`, the gcc invocation, ELF parsing and file I/O are left out: they are process and I/O plumbing and raw struct overlays.
- The rest of `MEXReloc` (`location`, relative address arithmetic) is left out. Only the packing of `cmd_and_code_offset` is modelled.
- `read_file`, `write_file`, `check_path_access`, `path_exists` and `my_strerror` in src/utils.h are left out because they are filesystem calls.
- src/ml.h, src/ml.c, src/mod.c and examples/test.rs are not part of this model.

## Findings

| source | as written | input that shows it | evidently intended | confidence | as-written member | corrected member |
|---|---|---|---|---|---|---|
| src/lib.rs:209-212 | an unaligned buffer is resized to `(len & 3) + 4` | a 9-byte buffer becomes 5 bytes, and offset 5 is returned | pad up to the next multiple of 4 | high, not executed | RsFormat.AllocTruncates | RsFormat.AlignedAllocSpec |
| src/dat.c:307-406 | the bounds check `ptr + width > data_size` of `dat_obj_set_ref` (line 310) and of every `dat_obj_read_*`/`dat_obj_write_*` is a u32 sum | `ptr = 0xFFFFFFFC`, width 4, 8 bytes of data: the check passes | reject any access past the data | medium, not executed | CFormat.OverrunExactlyAtWrap | CFormat.InBoundsAgrees |
| src/utils.h:264 | a multi-argument flag allocates a new table every time it appears, but keeps the count | `hmex -i a -i b`: the table counts two inputs, and the first slot was never written | extend the table | medium, not executed | CommandLine.RepeatedFlagLosesInputs | CommandLine.CorrectedKeepsInputs |
| src/hmex.c:360 | `err` is set once and never reset | the lines `X` and `80000000:a`: the second entry is dropped | reject only the malformed line | high, not executed | LinkTable.StickyErrorDropsEntries | LinkTable.MalformedLineSkipped |
| src/hmex.c:345-350 | the table is sized by counting `\n`, but `\r` also ends a line | `80000000:a\r?80000000:b`: two entries go into one slot | size the table by the lines the parser sees | medium, not executed | LinkTable.CarriageReturnOverflowsTable | LinkTable.LinkTableFits |
| src/hmex.c:353-403 | a malformed line still writes its symbol and a NUL | the one-byte file `X`: two bytes go into a one-byte buffer | the symbols fit in `lt_size` bytes | medium, not executed | LinkTable.MalformedLineOverflowsSymbols | LinkTable.LinkTableFits |
