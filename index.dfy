/** Building, saving and loading the read-name index (src/bri_index.c).

    While building, the index owns a name arena (NUL-terminated names back to
    back, growing geometrically from 1 MiB) and a record array (growing
    geometrically from 1024 records); a record names its read by an offset into
    the arena. Save sorts the records by name and writes the file of module
    Layout; load reads that file back into a LoadedIndex whose records name
    their reads by position in the loaded key segment. */
module Index {
  import opened Bytes
  import opened Words
  import opened Layout

  datatype Option<T> = None | Some(value: T)

  /** Initial arena capacity: 1 MiB. */
  const NAME_INITIAL_CAPACITY: nat := 0x10_0000
  /** Initial record capacity. */
  const RECORD_INITIAL_CAPACITY: nat := 1024

  /** The bytes of ".bri". */
  const INDEX_SUFFIX: seq<byte> := [46, 98, 114, 105]

  // ---------------------------------------------------------------------------
  // Index file name.

  /** The buffer generate_index_filename returns: the BAM path, ".bri" and a NUL,
      in a buffer of strlen + 5 bytes. */
  function IndexFilename(inputBam: Name): (buf: seq<byte>)
    ensures |buf| == |inputBam| + 5
    ensures CStringAt(buf, 0) == inputBam + INDEX_SUFFIX
  {
    var path := inputBam + INDEX_SUFFIX;
    assert NoNul(path) by {
      forall k | 0 <= k < |path| ensures path[k] != 0 {
        if k >= |inputBam| { assert path[k] == INDEX_SUFFIX[k - |inputBam|]; }
      }
    }
    CStringAtTerminated(path + [0], 0, path);
    path + [0]
  }

  /** The path of the index file of a BAM file. */
  function IndexPath(inputBam: Name): (path: Name) {
    CStringAt(IndexFilename(inputBam), 0)
  }

  /** Different BAM files never share an index file. */
  lemma IndexPathInjective(a: Name, b: Name)
    requires IndexPath(a) == IndexPath(b)
    ensures a == b
  {
    assert |a| == |b|;
    assert a == IndexPath(a)[..|a|];
  }

  // ---------------------------------------------------------------------------
  // Build-phase records and the comparator handed to qsort_r.

  /** A record while building: the offset of its name in the arena and the BAM
      file offset of the record. */
  datatype BuildRecord = BuildRecord(nameOffset: nat, fileOffset: Word)

  /** The name of a build-phase record, read from the arena. */
  function Key(arena: seq<byte>, r: BuildRecord): (n: Name) {
    CStringAt(arena, r.nameOffset)
  }

  /** compare_records_by_readname_offset: strcmp of the two records' names. */
  function CompareByNameOffset(arena: seq<byte>, r1: BuildRecord, r2: BuildRecord): (c: int)
    ensures -1 <= c <= 1
    ensures (c == 0) == (Key(arena, r1) == Key(arena, r2))
  {
    StrCmp(Key(arena, r1), Key(arena, r2))
  }

  /** The comparator is a total preorder, as qsort_r requires: it is zero exactly
      on equal names, antisymmetric and transitive. */
  lemma CompareByNameOffsetIsTotalPreorder(arena: seq<byte>, r1: BuildRecord, r2: BuildRecord, r3: BuildRecord)
    ensures (CompareByNameOffset(arena, r1, r2) == 0) == (Key(arena, r1) == Key(arena, r2))
    ensures CompareByNameOffset(arena, r2, r1) == -CompareByNameOffset(arena, r1, r2)
    ensures CompareByNameOffset(arena, r1, r2) <= 0 && CompareByNameOffset(arena, r2, r3) <= 0
            ==> CompareByNameOffset(arena, r1, r3) <= 0
  {
    StrCmpAntisymmetric(Key(arena, r1), Key(arena, r2));
    if CompareByNameOffset(arena, r1, r2) <= 0 && CompareByNameOffset(arena, r2, r3) <= 0 {
      StrCmpTransitive(Key(arena, r1), Key(arena, r2), Key(arena, r3));
    }
  }

  /** The (name, file offset) pairs the records stand for. */
  function EntriesOf(arena: seq<byte>, rs: seq<BuildRecord>): (es: seq<Entry>)
    ensures |es| == |rs|
    ensures forall i :: 0 <= i < |rs| ==> es[i].name == Key(arena, rs[i])
    ensures forall i :: 0 <= i < |rs| ==> es[i].fileOffset == rs[i].fileOffset
  {
    seq(|rs|, i requires 0 <= i < |rs| => Entry(Key(arena, rs[i]), rs[i].fileOffset))
  }

  /** Records non-decreasing under the comparator. */
  predicate RecordsSorted(arena: seq<byte>, rs: seq<BuildRecord>) {
    forall i, j :: 0 <= i < j < |rs| ==> CompareByNameOffset(arena, rs[i], rs[j]) <= 0
  }

  /** Records sorted by the comparator stand for entries sorted by name. */
  lemma RecordsSortedEntries(arena: seq<byte>, rs: seq<BuildRecord>)
    requires RecordsSorted(arena, rs)
    ensures SortedByName(EntriesOf(arena, rs))
  {
    var ns := NamesOf(EntriesOf(arena, rs));
    assert forall i :: 0 <= i < |rs| ==> ns[i] == Key(arena, rs[i]);
  }

  // qsort_r is a library routine; the model sorts by insertion. Save only relies
  // on the result being a sorted permutation, as qsort_r promises nothing about
  // the order of records with equal names.

  /** Insertion of one record before the first record it does not sort after;
      the sorting proof is SortByNameCorrect. */
  function Insert(arena: seq<byte>, r: BuildRecord, s: seq<BuildRecord>): (t: seq<BuildRecord>)
    ensures |t| == |s| + 1
  {
    if s == [] || CompareByNameOffset(arena, r, s[0]) <= 0 then [r] + s
    else [s[0]] + Insert(arena, r, s[1..])
  }

  /** Insertion sort of the records by name, standing for qsort_r. */
  function SortByName(arena: seq<byte>, rs: seq<BuildRecord>): (t: seq<BuildRecord>)
    ensures |t| == |rs|
  {
    if rs == [] then [] else Insert(arena, rs[0], SortByName(arena, rs[1..]))
  }

  /** The entries of a record in front of others are its entry in front of
      theirs. */
  lemma EntriesOfCons(arena: seq<byte>, r: BuildRecord, s: seq<BuildRecord>)
    ensures EntriesOf(arena, [r] + s) == [Entry(Key(arena, r), r.fileOffset)] + EntriesOf(arena, s)
  {
  }

  /** Inserting adds exactly the one record. */
  lemma {:induction false} InsertPermutes(arena: seq<byte>, r: BuildRecord, s: seq<BuildRecord>)
    ensures multiset(Insert(arena, r, s)) == multiset(s) + multiset{r}
  {
    if s != [] && CompareByNameOffset(arena, r, s[0]) > 0 {
      InsertPermutes(arena, r, s[1..]);
      assert s == [s[0]] + s[1..];
    }
  }

  /** Inserting a record adds exactly its entry. */
  lemma {:induction false} InsertPermutesEntries(arena: seq<byte>, r: BuildRecord, s: seq<BuildRecord>)
    ensures multiset(EntriesOf(arena, Insert(arena, r, s)))
         == multiset(EntriesOf(arena, s)) + multiset{Entry(Key(arena, r), r.fileOffset)}
  {
    if s == [] || CompareByNameOffset(arena, r, s[0]) <= 0 {
      EntriesOfCons(arena, r, s);
    } else {
      var u := Insert(arena, r, s[1..]);
      assert Insert(arena, r, s) == [s[0]] + u;
      InsertPermutesEntries(arena, r, s[1..]);
      EntriesOfCons(arena, s[0], u);
      EntriesOfCons(arena, s[0], s[1..]);
      assert s == [s[0]] + s[1..];
    }
  }

  /** Inserting into sorted records keeps them sorted. */
  lemma {:induction false} InsertSorted(arena: seq<byte>, r: BuildRecord, s: seq<BuildRecord>)
    requires RecordsSorted(arena, s)
    ensures RecordsSorted(arena, Insert(arena, r, s))
  {
    if s == [] || CompareByNameOffset(arena, r, s[0]) <= 0 {
      forall j | 0 <= j < |s|
        ensures CompareByNameOffset(arena, r, s[j]) <= 0
      {
        if j > 0 {
          CompareByNameOffsetIsTotalPreorder(arena, r, s[0], s[j]);
        }
      }
      ConsSorted(arena, r, s);
    } else {
      var u := Insert(arena, r, s[1..]);
      InsertSorted(arena, r, s[1..]);
      InsertPermutes(arena, r, s[1..]);
      CompareByNameOffsetIsTotalPreorder(arena, r, s[0], r);
      forall j | 0 <= j < |u|
        ensures CompareByNameOffset(arena, s[0], u[j]) <= 0
      {
        assert u[j] in multiset(u);
        if u[j] != r {
          assert u[j] in s[1..];
        }
      }
      ConsSorted(arena, s[0], u);
    }
  }

  /** A record no later than any of some sorted records, put in front of them,
      leaves them sorted. */
  lemma ConsSorted(arena: seq<byte>, r: BuildRecord, s: seq<BuildRecord>)
    requires RecordsSorted(arena, s)
    requires forall j :: 0 <= j < |s| ==> CompareByNameOffset(arena, r, s[j]) <= 0
    ensures RecordsSorted(arena, [r] + s)
  {
    var t := [r] + s;
    forall i, j | 0 <= i < j < |t|
      ensures CompareByNameOffset(arena, t[i], t[j]) <= 0
    {
      assert t[j] == s[j - 1];
      if i > 0 {
        assert t[i] == s[i - 1];
      }
    }
  }

  /** The sorted records are a sorted permutation of the input, and stand for the
      same (name, file offset) pairs. */
  lemma {:induction false} SortByNameCorrect(arena: seq<byte>, rs: seq<BuildRecord>)
    ensures RecordsSorted(arena, SortByName(arena, rs))
    ensures multiset(SortByName(arena, rs)) == multiset(rs)
    ensures multiset(EntriesOf(arena, SortByName(arena, rs))) == multiset(EntriesOf(arena, rs))
  {
    if rs != [] {
      SortByNameCorrect(arena, rs[1..]);
      InsertSorted(arena, rs[0], SortByName(arena, rs[1..]));
      InsertPermutes(arena, rs[0], SortByName(arena, rs[1..]));
      InsertPermutesEntries(arena, rs[0], SortByName(arena, rs[1..]));
      EntriesOfCons(arena, rs[0], rs[1..]);
      assert rs == [rs[0]] + rs[1..];
    }
  }

  // ---------------------------------------------------------------------------
  // Growth rules of add.

  /** Arena capacity after the growth step of add: when the name and its NUL do
      not fit, the capacity doubles, or becomes 1 MiB if it was 0. Growth is
      tried once. */
  function GrownNameCapacity(capacity: nat, count: nat, len: nat): (c: nat)
    ensures capacity <= c
    ensures count + len <= capacity ==> c == capacity
    ensures capacity < count + len ==>
      capacity < c && c == (if capacity == 0 then NAME_INITIAL_CAPACITY else 2 * capacity)
  {
    if count + len > capacity then (if capacity > 0 then 2 * capacity else NAME_INITIAL_CAPACITY)
    else capacity
  }

  /** The arena capacity add leaves as written, or None where it exits: after
      growing it exits whenever capacity <= count + len, so also when the name
      fills the arena exactly. */
  function NameCapacityAsWritten(capacity: nat, count: nat, len: nat): (r: Option<nat>)
    ensures r.Some? ==> r.value == GrownNameCapacity(capacity, count, len) && count + len < r.value
  {
    var grown := GrownNameCapacity(capacity, count, len);
    if grown <= count + len then None else Some(grown)
  }

  /** The rule as written and the corrected rule part exactly on names that
      fill the arena after the growth step. */
  lemma ExactFitIsTheOnlyDifference(capacity: nat, count: nat, len: nat)
    ensures NameCapacityAsWritten(capacity, count, len) != NameCapacity(capacity, count, len)
        <==> count + len == GrownNameCapacity(capacity, count, len)
  {
  }

  /** A name that fills the arena exactly makes add exit as written, although it
      fits; the corrected rule accepts it without growing. */
  lemma ExactFitRejectedAsWritten()
    ensures NameCapacityAsWritten(NAME_INITIAL_CAPACITY, NAME_INITIAL_CAPACITY - 6, 6).None?
    ensures NameCapacity(NAME_INITIAL_CAPACITY, NAME_INITIAL_CAPACITY - 6, 6) == Some(NAME_INITIAL_CAPACITY)
  {
  }

  /** The arena capacity add leaves, or None where it exits because the name does
      not fit even after growing (the corrected rule: exit only when
      capacity < count + len). Any name shorter than 1 MiB fits. */
  function NameCapacity(capacity: nat, count: nat, len: nat): (r: Option<nat>)
    ensures r.Some? <==> count + len <= GrownNameCapacity(capacity, count, len)
    ensures r.Some? ==> r.value == GrownNameCapacity(capacity, count, len)
    ensures (count <= capacity && (capacity == 0 || NAME_INITIAL_CAPACITY <= capacity)
             && len <= NAME_INITIAL_CAPACITY) ==> r.Some?
  {
    var grown := GrownNameCapacity(capacity, count, len);
    if grown < count + len then None else Some(grown)
  }

  /** Record capacity after the growth step of add: doubles (from 1024) exactly
      when the array is full, so there is always room for the new record. */
  function GrownRecordCapacity(capacity: nat, count: nat): (c: nat)
    ensures count <= capacity ==> count < c
    ensures capacity <= c
  {
    if count == capacity then (if capacity > 0 then 2 * capacity else RECORD_INITIAL_CAPACITY)
    else capacity
  }

  // ---------------------------------------------------------------------------
  // What build produces, as a function of what was added.

  /** The records add creates for the given additions, in arrival order: record i
      names the i-th name's offset in the arena. */
  function BuildRecordsOf(added: seq<Entry>): (rs: seq<BuildRecord>)
    ensures |rs| == |added|
  {
    seq(|added|, i requires 0 <= i < |added| => BuildRecord(NameOffset(NamesOf(added), i), added[i].fileOffset))
  }

  /** One more addition appends one record naming the old end of the arena. */
  lemma BuildRecordsOfAppend(added: seq<Entry>, e: Entry)
    ensures BuildRecordsOf(added + [e])
         == BuildRecordsOf(added) + [BuildRecord(|ArenaOf(NamesOf(added))|, e.fileOffset)]
    ensures ArenaOf(NamesOf(added + [e])) == ArenaOf(NamesOf(added)) + e.name + [0]
  {
    var ns, ns' := NamesOf(added), NamesOf(added + [e]);
    assert ns'[..|added|] == ns;
    forall i | 0 <= i <= |added|
      ensures ns'[..i] == ns[..i]
    {
    }
  }

  /** Each built record, read through the arena, gives back the name and offset
      that were added: every entry's key reference yields the originating
      record's key. */
  lemma BuiltEntries(added: seq<Entry>)
    ensures EntriesOf(ArenaOf(NamesOf(added)), BuildRecordsOf(added)) == added
  {
    var ns := NamesOf(added);
    forall i | 0 <= i < |added|
      ensures Key(ArenaOf(ns), BuildRecordsOf(added)[i]) == added[i].name
    {
      NameAt(ns, i);
    }
  }

  // ---------------------------------------------------------------------------
  // The index under construction.

  class ReadIndex {
    var nameCapacity: nat
    var nameCount: nat
    var readnames: array<byte>
    var recordCapacity: nat
    var recordCount: nat
    var records: array<BuildRecord>
    /** Every (name, file offset) added so far, in order. */
    ghost var Added: seq<Entry>

    ghost predicate Valid()
      reads this
    {
      && readnames.Length == nameCapacity && nameCount <= nameCapacity
      && (nameCapacity == 0 || NAME_INITIAL_CAPACITY <= nameCapacity)
      && records.Length == recordCapacity && recordCount <= recordCapacity
      && (recordCapacity == 0 || RECORD_INITIAL_CAPACITY <= recordCapacity)
    }

    /** The bytes of the arena in use. */
    function Arena(): seq<byte>
      reads this, readnames
      requires Valid()
    {
      readnames[..nameCount]
    }

    /** The records in use. */
    function Records(): seq<BuildRecord>
      reads this, records
      requires Valid()
    {
      records[..recordCount]
    }

    /** Arena and records are exactly what the additions made, in arrival order
        (true from init until save sorts the records). */
    ghost predicate InArrivalOrder()
      reads this, readnames, records
      requires Valid()
    {
      Arena() == ArenaOf(NamesOf(Added)) && Records() == BuildRecordsOf(Added)
    }

    /** bam_read_idx_init: an empty index with nothing allocated. */
    constructor ()
      ensures Valid() && InArrivalOrder() && Added == []
      ensures nameCapacity == 0 && nameCount == 0 && recordCapacity == 0 && recordCount == 0
      ensures fresh(readnames) && fresh(records)
    {
      nameCapacity, nameCount := 0, 0;
      readnames := new byte[0];
      recordCapacity, recordCount := 0, 0;
      records := new BuildRecord[0];
      Added := [];
    }

    /** bam_read_idx_add: append name and its NUL to the arena, growing it once if
        needed, then append the record (arena offset of the name, file offset),
        growing the record array if it is full. ok is false where the source
        exits because the name cannot fit. */
    method Add(name: Name, offset: Word) returns (ok: bool)
      requires Valid()
      modifies this, readnames, records
      ensures Valid()
      ensures fresh(readnames) || readnames == old(readnames)
      ensures fresh(records) || records == old(records)
      ensures ok == NameCapacity(old(nameCapacity), old(nameCount), |name| + 1).Some?
      ensures |name| < NAME_INITIAL_CAPACITY ==> ok
      ensures nameCapacity == GrownNameCapacity(old(nameCapacity), old(nameCount), |name| + 1)
      ensures ok ==> nameCount == old(nameCount) + |name| + 1
      ensures ok ==> Arena() == old(Arena()) + name + [0]
      ensures ok ==> recordCapacity == GrownRecordCapacity(old(recordCapacity), old(recordCount))
      ensures ok ==> recordCount == old(recordCount) + 1
      ensures ok ==> Records() == old(Records()) + [BuildRecord(old(nameCount), offset)]
      ensures ok ==> Added == old(Added) + [Entry(name, offset)]
      ensures !ok ==> Arena() == old(Arena()) && Records() == old(Records()) && Added == old(Added)
      ensures old(InArrivalOrder()) ==> InArrivalOrder()
    {
      var len := |name| + 1;
      GrowNames(len);
      if nameCapacity < nameCount + len {
        return false;
      }
      ok := true;

      var nameOffset := nameCount;
      AppendName(name);
      GrowRecords();
      AppendRecord(BuildRecord(nameOffset, offset));
      BuildRecordsOfAppend(Added, Entry(name, offset));
      Added := Added + [Entry(name, offset)];
    }

    /** Write the record after the records in use, where there is room for it. */
    method AppendRecord(r: BuildRecord)
      requires Valid() && recordCount < recordCapacity
      modifies this, records
      ensures Valid()
      ensures Records() == old(Records()) + [r] && recordCount == old(recordCount) + 1
      ensures Arena() == old(Arena())
      ensures records == old(records) && recordCapacity == old(recordCapacity) && Added == old(Added)
      ensures readnames == old(readnames) && nameCapacity == old(nameCapacity)
      ensures nameCount == old(nameCount)
    {
      records[recordCount] := r;
      recordCount := recordCount + 1;
      assert records[..recordCount - 1] == old(Records());
    }

    /** The arena growth step of add: when the name and its NUL do not fit, move
        the arena into a buffer of the grown capacity. */
    method GrowNames(len: nat)
      requires Valid()
      modifies this
      ensures Valid()
      ensures fresh(readnames) || readnames == old(readnames)
      ensures nameCapacity == GrownNameCapacity(old(nameCapacity), old(nameCount), len)
      ensures Arena() == old(Arena())
      ensures nameCount == old(nameCount) && Added == old(Added)
      ensures records == old(records) && recordCapacity == old(recordCapacity)
      ensures recordCount == old(recordCount)
    {
      if nameCount + len > nameCapacity {
        var grownCapacity := if nameCapacity > 0 then 2 * nameCapacity else NAME_INITIAL_CAPACITY;
        var grown := new byte[grownCapacity];
        forall k | 0 <= k < nameCount {
          grown[k] := readnames[k];
        }
        assert grown[..nameCount] == readnames[..nameCount];
        readnames, nameCapacity := grown, grownCapacity;
      }
    }

    /** Copy name and its NUL to the end of the arena, which has room for them. */
    method AppendName(name: Name)
      requires Valid() && nameCount + |name| + 1 <= nameCapacity
      modifies this, readnames
      ensures Valid()
      ensures Arena() == old(Arena()) + name + [0]
      ensures nameCount == old(nameCount) + |name| + 1
      ensures readnames == old(readnames) && nameCapacity == old(nameCapacity) && Added == old(Added)
      ensures records == old(records) && recordCapacity == old(recordCapacity)
      ensures recordCount == old(recordCount)
    {
      forall k | 0 <= k < |name| {
        readnames[nameCount + k] := name[k];
      }
      readnames[nameCount + |name|] := 0;
      nameCount := nameCount + |name| + 1;
    }

    /** The record growth step of add: when the record array is full, move it into
        an array of twice the capacity (1024 at first). */
    method GrowRecords()
      requires Valid()
      modifies this
      ensures Valid()
      ensures fresh(records) || records == old(records)
      ensures recordCapacity == GrownRecordCapacity(old(recordCapacity), old(recordCount))
      ensures Records() == old(Records())
      ensures recordCount == old(recordCount) && Added == old(Added)
      ensures readnames == old(readnames) && nameCapacity == old(nameCapacity)
      ensures nameCount == old(nameCount)
    {
      if recordCount == recordCapacity {
        var grownCapacity := if recordCapacity > 0 then 2 * recordCapacity else RECORD_INITIAL_CAPACITY;
        var grown := new BuildRecord[grownCapacity];
        forall k | 0 <= k < recordCount {
          grown[k] := records[k];
        }
        assert grown[..recordCount] == records[..recordCount];
        records, recordCapacity := grown, grownCapacity;
      }
    }

    /** bam_read_idx_save: sort the records by name in place, then produce the
        index file: header with a placeholder, the deduplicated key segment
        (pass 1), the records with their disk offsets (pass 2), and finally the
        real key-segment length patched over the placeholder. */
    method Save() returns (file: seq<byte>)
      requires Valid()
      modifies records
      ensures Valid() && Arena() == old(Arena())
      ensures multiset(Records()) == multiset(old(Records()))
      ensures multiset(EntriesOf(Arena(), Records())) == multiset(old(EntriesOf(Arena(), Records())))
      ensures SortedByName(EntriesOf(Arena(), Records()))
      ensures file == Serialize(EntriesOf(Arena(), Records()))
    {
      var arena := Arena();
      ghost var unsorted := Records();
      SortRecords();
      SortByNameCorrect(arena, unsorted);
      RecordsSortedEntries(arena, Records());
      file := WriteIndex(arena, records[..recordCount]);
    }

    /** The qsort_r call of save: reorder the records in use by name. */
    method SortRecords()
      requires Valid()
      modifies records
      ensures Valid() && Arena() == old(Arena())
      ensures Records() == SortByName(Arena(), old(Records()))
    {
      var sorted := SortByName(Arena(), Records());
      forall k | 0 <= k < recordCount {
        records[k] := sorted[k];
      }
      assert Records() == sorted;
    }
  }

  /** The writing part of save, on the sorted records: the header with a
      placeholder for the key-segment length, the deduplicated key segment
      (pass 1), the records with their disk offsets (pass 2), and finally the
      real key-segment length patched over the placeholder. */
  method WriteIndex(arena: seq<byte>, sorted: seq<BuildRecord>) returns (file: seq<byte>)
    ensures file == Serialize(EntriesOf(arena, sorted))
  {
    var es := EntriesOf(arena, sorted);
    var count := |sorted|;
    var segment, diskOffsets := WriteKeySegment(arena, sorted, NamesOf(es));
    ghost var ds := DiskRecordsOf(es);
    assert forall i :: 0 <= i < count ==> ds[i] == DiskRecord(diskOffsets[i], sorted[i].fileOffset) by {
      forall i | 0 <= i < count
        ensures ds[i] == DiskRecord(diskOffsets[i], sorted[i].fileOffset)
      {
        assert diskOffsets[..][i] == diskOffsets[i];
      }
    }
    var recordBytes := WriteRecords(diskOffsets[..], sorted, ds);
    file := Header(0, count) + segment + recordBytes;
    // Patch the key-segment length over the placeholder.
    PatchSegmentWord(|segment|, count, segment, recordBytes);
    file := file[..8] + WordBytes(|segment|) + file[16..];
  }

  /** Overwriting the second word of a header with a placeholder segment length
      gives the header with that length, whatever follows the header. */
  lemma PatchSegmentWord(segmentBytes: nat, count: nat, segment: seq<byte>, recordBytes: seq<byte>)
    ensures var file := Header(0, count) + segment + recordBytes;
      file[..8] + WordBytes(segmentBytes) + file[16..] == Header(segmentBytes, count) + segment + recordBytes
  {
    var v, c := WordBytes(FILE_VERSION), WordBytes(count);
    assert Header(0, count) == v + WordBytes(0) + c;
    assert Header(segmentBytes, count) == v + WordBytes(segmentBytes) + c;
    OverwriteSecondWord(v, WordBytes(0), WordBytes(segmentBytes), c, segment, recordBytes);
  }

  /** Replacing bytes 8 to 16 of a byte string by eight others. */
  lemma OverwriteSecondWord(first: seq<byte>, old8: seq<byte>, new8: seq<byte>,
                            third: seq<byte>, segment: seq<byte>, recordBytes: seq<byte>)
    requires |first| == 8 && |old8| == 8
    ensures var file := first + old8 + third + segment + recordBytes;
      file[..8] + new8 + file[16..] == first + new8 + third + segment + recordBytes
  {
    var file := first + old8 + third + segment + recordBytes;
    assert file[..8] == first;
    assert file[16..] == third + segment + recordBytes;
  }

  /** Pass 1 of save: walk the sorted records, writing each name that differs from
      its predecessor (with its NUL) to the key segment and recording the segment
      offset it was written at; a repeated name takes its predecessor's offset. */
  method WriteKeySegment(arena: seq<byte>, rs: seq<BuildRecord>, ghost ns: seq<Name>)
    returns (segment: seq<byte>, diskOffsets: array<nat>)
    requires |ns| == |rs| && forall i {:trigger Key(arena, rs[i])} :: 0 <= i < |rs| ==> ns[i] == Key(arena, rs[i])
    ensures fresh(diskOffsets)
    ensures segment == Segment(ns)
    ensures diskOffsets[..] == DiskOffsets(ns)
  {
    diskOffsets := new nat[|rs|];
    segment := [];
    var readnameBytes := 0;
    var i := 0;
    while i < |rs|
      invariant 0 <= i <= |rs|
      invariant readnameBytes == |segment|
      invariant segment == Segment(ns[..i])
      invariant diskOffsets[..i] == DiskOffsets(ns)[..i]
    {
      var name := Key(arena, rs[i]);
      var redundant := i > 0 && StrCmp(name, Key(arena, rs[i - 1])) == 0;
      assert name == ns[i] && redundant == Redundant(ns, i);
      ghost var written := diskOffsets[..i];
      ghost var before := segment;
      if !redundant {
        diskOffsets[i] := readnameBytes;
        segment := segment + name + [0];
        readnameBytes := readnameBytes + |name| + 1;
      } else {
        diskOffsets[i] := diskOffsets[i - 1];
      }
      assert diskOffsets[..i + 1] == written + [diskOffsets[i]];
      KeySegmentStep(ns, i, before, written, diskOffsets[i]);
      i := i + 1;
    }
    assert ns[..i] == ns;
    assert diskOffsets[..] == diskOffsets[..i];
  }

  /** One iteration of pass 1: from the segment and disk offsets of the first i
      records, a fresh name appends itself and its NUL and takes the current
      segment length as its disk offset, and a repeated name takes its
      predecessor's disk offset. */
  lemma KeySegmentStep(ns: seq<Name>, i: nat, segment: seq<byte>, offsets: seq<nat>, offset: nat)
    requires i < |ns|
    requires segment == Segment(ns[..i]) && offsets == DiskOffsets(ns)[..i]
    requires offset == if Redundant(ns, i) then offsets[i - 1] else |segment|
    ensures Segment(ns[..i + 1]) == segment + (if Redundant(ns, i) then [] else ns[i] + [0])
    ensures offsets + [offset] == DiskOffsets(ns)[..i + 1]
  {
    PrefixStep(ns, i);
  }

  /** Pass 2 of save: write each sorted record as its disk offset and its BAM file
      offset. */
  method WriteRecords(diskOffsets: seq<nat>, rs: seq<BuildRecord>, ghost ds: seq<DiskRecord>) returns (bytes: seq<byte>)
    requires |diskOffsets| == |rs| == |ds|
    requires forall i :: 0 <= i < |rs| ==> ds[i] == DiskRecord(diskOffsets[i], rs[i].fileOffset)
    ensures bytes == EncodeRecords(ds)
  {
    bytes := [];
    var i := 0;
    while i < |rs|
      invariant 0 <= i <= |rs|
      invariant bytes == EncodeRecords(ds[..i])
    {
      assert ds[..i + 1][..i] == ds[..i];
      bytes := bytes + EncodeRecord(DiskRecord(diskOffsets[i], rs[i].fileOffset));
      i := i + 1;
    }
    assert ds[..i] == ds;
  }

  // ---------------------------------------------------------------------------
  // Build and load.

  /** The BAM reader as the builder sees it: the read name of every record in
      file order, and the reader position (bgzf_tell) before each record and
      after the last. */
  datatype BamReader = BamReader(names: seq<Name>, tells: seq<Word>)

  /** What build adds: each record's name with the reader position before that
      record was read. */
  function Arrivals(bam: BamReader): (es: seq<Entry>)
    requires |bam.tells| == |bam.names| + 1
    ensures |es| == |bam.names|
  {
    seq(|bam.names|, k requires 0 <= k < |bam.names| => Entry(bam.names[k], bam.tells[k]))
  }

  /** bam_read_idx_build: add every BAM record in file order, with the reader
      position before it, then save to the index path. ok is false where add
      exits on a name too long for the arena, which no name under 1 MiB is. */
  method Build(inputBam: Name, bam: BamReader) returns (ok: bool, indexPath: Name, file: seq<byte>)
    requires |bam.tells| == |bam.names| + 1
    ensures indexPath == IndexPath(inputBam)
    ensures (forall k :: 0 <= k < |bam.names| ==> |bam.names[k]| < NAME_INITIAL_CAPACITY) ==> ok
    ensures ok ==> exists es :: SortedByName(es) && multiset(es) == multiset(Arrivals(bam))
                               && file == Serialize(es)
  {
    indexPath := IndexPath(inputBam);
    var bri := new ReadIndex();
    var fileOffset := bam.tells[0];
    var k := 0;
    while k < |bam.names|
      invariant 0 <= k <= |bam.names|
      invariant fresh(bri) && fresh(bri.readnames) && fresh(bri.records)
      invariant bri.Valid() && bri.InArrivalOrder()
      invariant bri.Added == Arrivals(bam)[..k]
      invariant fileOffset == bam.tells[k]
    {
      var added := bri.Add(bam.names[k], fileOffset);
      if !added {
        return false, indexPath, [];
      }
      ArrivalsStep(bam, k);
      fileOffset := bam.tells[k + 1];
      k := k + 1;
    }
    assert Arrivals(bam)[..k] == Arrivals(bam);
    BuiltEntries(bri.Added);
    assert EntriesOf(bri.Arena(), bri.Records()) == Arrivals(bam);
    file := bri.Save();
    ok := true;
    ghost var es := EntriesOf(bri.Arena(), bri.Records());
    assert SortedByName(es) && multiset(es) == multiset(Arrivals(bam)) && file == Serialize(es);
  }

  /** The arrivals up to record k + 1 extend those up to record k by one. */
  lemma ArrivalsStep(bam: BamReader, k: nat)
    requires |bam.tells| == |bam.names| + 1 && k < |bam.names|
    ensures Arrivals(bam)[..k + 1] == Arrivals(bam)[..k] + [Entry(bam.names[k], bam.tells[k])]
  {
  }

  /** bam_read_idx_load: find the index file of the BAM file, read the header, the
      key segment and the records, and resolve each record's disk offset into a
      reference into the loaded key segment. */
  method Load(files: map<Name, seq<byte>>, inputBam: Name) returns (r: LoadResult)
    ensures IndexPath(inputBam) !in files ==> r == Failed(IndexNotFound)
    ensures IndexPath(inputBam) in files ==> r == DecodeIndex(files[IndexPath(inputBam)])
  {
    var path := IndexPath(inputBam);
    if path !in files {
      return Failed(IndexNotFound);
    }
    var file := files[path];
    // The version word at offset 0 is not used.
    if |file| < HEADER_BYTES {
      return Failed(ShortHeader);
    }
    var nameCount := WordAt(file, 8);
    var recordCount := WordAt(file, 16);
    if |file| - HEADER_BYTES < nameCount {
      return Failed(ShortNames);
    }
    var readnames := file[HEADER_BYTES..HEADER_BYTES + nameCount];
    var body := file[HEADER_BYTES + nameCount..];
    if |body| < RECORD_BYTES * recordCount {
      return Failed(ShortRecords);
    }
    var disk := DecodeRecords(body, recordCount);

    // Convert read name offsets into references into the key segment.
    var records: seq<LoadedRecord> := [];
    var i := 0;
    while i < recordCount
      invariant 0 <= i <= recordCount
      invariant records == ResolveAll(disk[..i])
    {
      records := records + [Resolve(disk[i])];
      i := i + 1;
    }
    assert disk[..recordCount] == disk;
    r := Loaded(LoadedIndex(readnames, records));
  }
}
