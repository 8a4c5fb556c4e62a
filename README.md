# bri read-name index, modelled in Dafny

`bri` maps the read name of every record of a BAM file to the offsets of the
records carrying it. Three pieces make up its core, and this project models each of them:

- **Building** (`bam_read_idx_init`, `bam_read_idx_add`, `bam_read_idx_build`):
  - Every read name is appended, NUL-terminated, to a growable byte arena.
  - A record (arena offset of the name, BAM file offset) is appended to a growable record array.
  - The model is class `Index.ReadIndex`, whose fields are the source's counts, capacities and two buffers.
- **Saving and loading** (`bam_read_idx_save`, `bam_read_idx_load`):
  - Save sorts the records by name with `strcmp`. Pass 1 writes every distinct name once to the key segment and notes each record's disk offset. Pass 2 writes the records with those disk offsets. Finally save patches the key-segment length into the header.
  - Load reads the header, the key segment and the records, and turns every disk offset into a reference into the loaded key segment.
  - The file is a byte sequence of 8-byte little-endian `size_t` words (module `Layout`, specified as `Serialize` and `DecodeIndex`). Save and load are methods that are proved equal to these functions.
- **Querying** (`bam_read_idx_get_range`):
  - A binary search finds some record carrying the query name.
  - Two loops then widen the hit to the maximal run of such records. They compare name *pointers*, not strings.
  - That is sound only because save stores each name once. `Layout.LoadAfterSave` and `Query.PointerRunIsNameRun` prove that link.

Modules:

| module | contents |
|---|---|
| `Bytes` | bytes, `size_t`, read names, `strlen` as `CStringAt`, `strcmp` as `StrCmp`, and the name arena `ArenaOf` |
| `Words` | the 8-byte little-endian encoding of `size_t` |
| `Layout` | the index file format, save's deduplication and disk offsets, decoding, and the save/load round trip |
| `Index` | the index under construction, save, build and load |
| `Query` | bsearch and get_range |

The `bam_read_idx_record` union of an offset and a pointer (`src/bri_index.h:30-33`) is modelled by one record type per phase:

- `BuildRecord`: the name's offset in the arena.
- `DiskRecord`: the name's offset in the key segment.
- `LoadedRecord`: the name's position in the loaded key segment, which stands for the pointer. Two pointers into the segment are equal exactly when the positions are.

## Model

| member | source | states |
|---|---|---|
| `Bytes.CStringAt` | src/bri_index.c:71-73 | reading a name through an offset into a block of C strings, as strcmp and strlen do: the name read at p is the NUL-free run starting there, ended by a NUL or the end of the buffer |
| `Bytes.StrCmp` | src/bri_index.c:73 | strcmp over unsigned bytes, a proper prefix first: the result is -1, 0 or 1, and 0 exactly for equal names |
| `Bytes.StrCmpTransitive` | src/bri_index.c:82 | the order strcmp induces is transitive, as the qsort_r and bsearch callers need |
| `Bytes.NameAt` | src/bri_index.c:172-175 | in an arena of names each followed by its NUL, reading at the offset of name i gives name i back |
| `Words.DecodeEncode` | src/bri_index.c:89-97 | decoding the low k bytes of a number below 256^k gives the number back |
| `Words.WordRoundTrip` | src/bri_index.c:255-271 | a size_t word written anywhere in a file is read back unchanged by fread at the same position |
| `Index.IndexFilename` | src/bri_index.c:24-33 | the file name buffer is strlen + 5 bytes and holds the BAM path followed by ".bri" and a NUL |
| `Index.IndexPathInjective` | src/bri_index.c:24-33 | different BAM paths never share an index path |
| `Index.CompareByNameOffset` | src/bri_index.c:68-74 | the qsort_r comparator returns -1, 0 or 1, and 0 exactly when the names the two records point at in the arena are equal |
| `Index.CompareByNameOffsetIsTotalPreorder` | src/bri_index.c:68-74 | the comparator handed to qsort_r is zero exactly on equal names, antisymmetric and transitive |
| `Index.SortByNameCorrect` | src/bri_index.c:82 | sorting yields records non-decreasing by name, a permutation of the input that stands for the same (name, file offset) pairs |
| `Index.GrownNameCapacity` | src/bri_index.c:151-154 | the growth step never shrinks the arena, leaves it alone when the name and its NUL fit, and otherwise makes it larger: 1 MiB from 0, else double |
| `Index.NameCapacityAsWritten` | src/bri_index.c:151-169 | after a successful add as written, the capacity is the grown one and the name count stays strictly below it |
| `Index.ExactFitIsTheOnlyDifference` | src/bri_index.c:166-169 | for every capacity, count and name length, add as written and the corrected rule disagree exactly when the name fills the grown arena |
| `Index.ExactFitRejectedAsWritten` | src/bri_index.c:166-169 | a name that exactly fills the 1 MiB arena makes add exit as written, and the corrected rule accepts it without growing |
| `Index.NameCapacity` | src/bri_index.c:151-169 | add, corrected, succeeds exactly when the name fits after one growth step (to 1 MiB from 0, else doubling), and then the capacity is the grown one; any name shorter than 1 MiB fits |
| `Index.GrownRecordCapacity` | src/bri_index.c:180-187 | the record capacity (1024 at first, then doubling when full) never shrinks and always leaves room for one more record |
| `Index.BuildRecordsOfAppend` | src/bri_index.c:189-191 | one more addition appends exactly one record naming the old end of the arena, and extends the arena by the name and its NUL |
| `Index.BuiltEntries` | src/bri_index.c:172-190 | every built record, read through the arena, gives back the name and file offset that were added |
| `Index.ReadIndex.constructor` | src/bri_index.c:36-49 | init gives an empty index with zero capacities and counts |
| `Index.ReadIndex.Add` | src/bri_index.c:145-192 | add succeeds exactly when the name fits after one growth step; then the arena gains the name and its NUL at the old name count, and one record (old name count, file offset) is appended with the earlier records unchanged; on failure arena and records are unchanged; counts never exceed capacities |
| `Index.ReadIndex.GrowNames` | src/bri_index.c:151-162 | the arena capacity becomes the grown one and the arena contents are kept |
| `Index.ReadIndex.AppendName` | src/bri_index.c:171-175 | the name and its NUL are copied after the arena in use and the name count grows by strlen + 1 |
| `Index.ReadIndex.GrowRecords` | src/bri_index.c:180-187 | the record capacity becomes the grown one and the records in use are kept |
| `Index.ReadIndex.AppendRecord` | src/bri_index.c:189-191 | the new record is written after the records in use and the record count grows by one |
| `Index.ReadIndex.Save` | src/bri_index.c:77-142 | save leaves the records a name-sorted permutation of the built ones, for the same (name, file offset) pairs, and writes exactly Serialize of them |
| `Index.ReadIndex.SortRecords` | src/bri_index.c:82 | the records in use are replaced by their sorted order and the arena is untouched |
| `Index.WriteIndex` | src/bri_index.c:84-138 | header with placeholder, pass 1, pass 2 and the header patch write exactly Serialize of the sorted records |
| `Index.WriteKeySegment` | src/bri_index.c:99-122 | pass 1 writes the deduplicated key segment and fills the disk offset array with DiskOffsets of the names |
| `Index.KeySegmentStep` | src/bri_index.c:106-117 | one record further, a fresh name appends itself and its NUL and takes the segment length as disk offset, and a repeated name takes its predecessor's |
| `Index.WriteRecords` | src/bri_index.c:124-134 | pass 2 writes each record as its disk offset and its file offset, exactly EncodeRecords |
| `Index.PatchSegmentWord` | src/bri_index.c:136-138 | overwriting the placeholder word at offset 8 gives the header with the real segment length |
| `Index.Build` | src/bri_index.c:195-234 | build adds every input record in input order with the reader position before it; it succeeds whenever every name is shorter than 1 MiB, and then the file written is Serialize of a name-sorted permutation of the input records, at the index path |
| `Index.Load` | src/bri_index.c:243-308 | load fails when there is no index file; otherwise its result is DecodeIndex of the file's bytes |
| `Layout.PrefixStep` | src/bri_index.c:104-117 | record i enlarges the key segment by its name and NUL and takes the current segment length as disk offset exactly when its name differs from record i-1's; otherwise it reuses record i-1's disk offset |
| `Layout.DiskOffsetsPrefix` | src/bri_index.c:104-117 | a record's disk offset depends only on the records up to it |
| `Layout.DiskOffsetsResolve` | src/bri_index.c:108-112 | every disk offset points into the key segment at the record's own name followed by its NUL |
| `Layout.DiskOffsetsIdentifyNames` | src/bri_index.c:106-116 | for sorted records, two records carry equal disk offsets exactly when their names are equal |
| `Layout.SegmentHoldsEachNameOnce` | src/bri_index.c:104-122 | for sorted records the key segment holds every record name and no other, each exactly once, and its length is the sum of len + 1 over the distinct names |
| `Layout.Serialize` | src/bri_index.c:84-138 | the file save writes is the 24-byte header, then the key segment, then 16 bytes per record |
| `Layout.HeaderRoundTrip` | src/bri_index.c:253-271 | the version, segment-length and record-count words read back as written |
| `Layout.SavedHeader` | src/bri_index.c:88-97 | the header save writes holds version 1, the key-segment length (for sorted records the sum of len + 1 over distinct names) and the record count |
| `Layout.DecodeEncodeRecords` | src/bri_index.c:126-129 | the records pass 2 writes read back as written |
| `Layout.DecodeIndex` | src/bri_index.c:253-303 | load succeeds exactly when the file holds the header, the announced key segment and the announced records (24 + segment length + 16 * count bytes at least); the key segment is then the announced bytes after the header, and the records are the announced number read after it, resolved |
| `Layout.Resolve` | src/bri_index.c:298-299 | a record's name pointer becomes the position of its disk offset in the loaded key segment; its file offset is kept |
| `Layout.ResolveAll` | src/bri_index.c:297-303 | load resolves every record read, in order, and keeps their number |
| `Layout.DecodeSerialized` | src/bri_index.c:243-303 | loading what save wrote succeeds and yields the key segment and the records with their disk offsets resolved, whenever sizes fit size_t |
| `Layout.LoadAfterSave` | src/bri_index.c:297-303 | load(save(es)) holds exactly the entries es in order; when es is sorted, the loaded index is sorted and equal names share one name pointer |
| `Layout.ReadsSucceedAsWritten` | src/bri_index.c:255-295 | the fread checks of load as written pass only when the header and the announced key segment are present; they agree with the corrected decoder on every file with a non-empty key segment and record section, save that they also pass a truncated record section |
| `Layout.EmptyIndexRejectedAsWritten` | src/bri_index.c:286-289 | the index saved for a BAM file with no records fails the read checks of load as written, although it decodes to the empty index |
| `Layout.TruncatedRecordsAcceptedAsWritten` | src/bri_index.c:292-295 | a file announcing one record but holding one byte of it passes the read checks of load as written, while the corrected decoder rejects it |
| `Query.CompareQuery` | src/bri_get.c:35-40 | the bsearch comparator is zero exactly when the query equals the record's name, and is the negation of comparing the record against the query |
| `Query.BSearch` | src/bri_get.c:45-52 | over name-sorted records, a record is found exactly when some record carries the query name, and the record found carries it |
| `Query.RunStart` | src/bri_get.c:61-68 | the backward walk stops at the first record of the run of equal name pointers ending at the hit |
| `Query.RunStop` | src/bri_get.c:70-73 | the do-while forward walk stops one past the last record of the run of equal name pointers from the start |
| `Query.PointerEqualityIsNameEquality` | src/bri_get.c:65-72 | when equal names share one pointer, two records have equal name pointers exactly when they have equal names |
| `Query.PointerRunIsNameRun` | src/bri_get.c:65-73 | a maximal run of equal name pointers around a record named q is a maximal run of q |
| `Query.GetRange` | src/bri_get.c:43-77 | the range is absent exactly when no record carries the query name; otherwise it is non-empty, every record in it carries the name, and the records just outside do not |
| `Query.RunHoldsAllMatches` | src/bri_test.c:62-93 | in sorted records the maximal run of a name holds every record with that name, so querying each distinct name visits every record |
| `Query.RunIsUnique` | src/bri_get.h:20-23 | a name has only one maximal run, so start is the first and end one past the last record with the name |
| `Query.QueryAfterSave` | src/bri_get.c:43-77 | on the index loaded from what save wrote, the run found for q is exactly the saved records named q |

## Left out

- htslib I/O is left out: opening the BAM file, reading its header and records, `bgzf_tell`, `bgzf_seek`, and `bam_read_idx_get_by_record`. Build reads an abstract sequence of names and reader positions instead (`Index.BamReader`).
- `FILE*` plumbing is left out. The index file is a byte sequence: save returns it, and load reads it from a map from paths to file contents that stands for the file system. The `fseek` patch is the overwriting of the placeholder word.
- Memory management is left out: `malloc`/`realloc` failure exits, `free` and `bam_read_idx_destroy`. In particular, `malloc(0)` in load may return NULL and exit for an empty index; this is implementation-defined and not modelled.
- Index.ReadIndex.Add: where the source exits the process, the model returns `false` and build stops without writing a file.
- Index.ReadIndex.Add: does not promise `name_count_bytes < name_capacity_bytes` after a successful add. That promise holds only because of the off-by-one listed under Findings. The corrected rule admits a name that fills the arena exactly.
- Index.ReadIndex.Save: the sort is modelled as insertion sort, and the contract promises only a name-sorted permutation, because `qsort_r` is not stable and leaves the order of equal names unspecified.
- Index.Load: the capacities load sets equal to the counts (`src/bri_index.c:265`, `273`) are not modelled. The loaded index is an immutable value (`Layout.LoadedIndex`), since nothing grows it after load.
- Index.Load: the version word is read and ignored, as in the source.
- Layout.DecodeIndex: load does not check that disk offsets point into the key segment, nor that the segment ends with a NUL, and neither does the source. There the later `strcmp` of the query reads past the segment, which is undefined behaviour. `Layout.NameOf` gives such a read a defined value instead: the name is cut off at the end of the segment, and an offset outside the segment reads as the empty name. `Bytes.CStringAt` is strlen only on buffers holding a NUL after the position read.
- Load takes the records in one step, and the in-place rewriting of each record's name field is modelled as building a new sequence of resolved records.
- Layout.LoadAfterSave: holds only when the key-segment length and the record count fit in 64 bits. Save writes these counts modulo 2^64, as `size_t` would.
- Capacities and counts are unbounded integers. Overflow of `2 * capacity` or of `name_count_bytes + len` in `size_t` is not modelled.
- The debug output of `BRI_INDEX_DEBUG` and the commented-out `fprintf` calls are left out.
- The command-line front ends (`bri_main.c`, `bri_show.c`, the `*_main` functions) are left out, as is the benchmark (`bri_benchmark.c`).
- The earlier prototype `bri.c` is not part of this model; it differs from the current code.
- The test `bri_test.c` is not modelled. Its property, that querying every distinct name visits every record, is `Query.RunHoldsAllMatches`.
- Words are fixed at 8 bytes, little-endian, the layout of the 64-bit platforms the format is written on.

## Findings

| source | as written | input that shows it | evidently intended | confidence | as-written member | corrected member |
|---|---|---|---|---|---|---|
| src/bri_index.c:166 | after growing, add exits when `capacity <= count + len` | arena capacity 1 MiB holding 1 MiB - 6 bytes, then a 5-byte name (len 6): it fits exactly, yet the process exits | exit only when `capacity < count + len` | high; not executed | `Index.ExactFitRejectedAsWritten` | `Index.NameCapacity` |
| src/bri_index.c:286 | the key segment is read with `fread(buf, name_count_bytes, 1, fp)`, and a 0 result is an error | a BAM file with no records: save writes a 24-byte header with segment length 0 and count 0; `fread` with item size 0 returns 0, and load exits | load the empty index | high; not executed | `Layout.EmptyIndexRejectedAsWritten` | `Layout.DecodeIndex` |
| src/bri_index.c:292 | the records are read with `fread(records, record_count, sizeof(record), fp)`: size and count are swapped | a header announcing a 2-byte segment and 1 record, followed by "A", NUL and a single record byte: `fread` reads one 1-byte item and load accepts a record that was never read | reject a file with fewer than `record_count * sizeof(record)` record bytes | high; not executed | `Layout.TruncatedRecordsAcceptedAsWritten` | `Layout.DecodeIndex` |

`Layout.DecodeIndex`, with the corrected read checks, is the decoder the rest of the model uses; `Layout.LoadAfterSave` proves the round trip with it for every sequence of entries whose sizes fit size_t, the empty one included. `Index.NameCapacity` is the growth rule `Index.ReadIndex.Add` uses.
