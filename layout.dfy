/** The on-disk form of the read-name index and the loaded, queryable form it is
    read back into.

    File layout (every integer a size_t word, see module Words):
      version (1) | key-segment length | record count | key segment | records
    The key segment holds every distinct read name once, NUL-terminated, in the
    order of the name-sorted records; a record is (disk offset of its name in the
    key segment, offset of the BAM record in the BAM file). */
module Layout {
  import opened Bytes
  import opened Words

  const FILE_VERSION: nat := 1
  /** Three size_t words. */
  const HEADER_BYTES: nat := 24
  /** Two size_t words. */
  const RECORD_BYTES: nat := 16

  /** One indexed BAM record: its read name and the position of the record in
      the BAM file. */
  datatype Entry = Entry(name: Name, fileOffset: Word)

  function NamesOf(es: seq<Entry>): (ns: seq<Name>)
    ensures |ns| == |es|
    ensures forall i :: 0 <= i < |es| ==> ns[i] == es[i].name
  {
    seq(|es|, i requires 0 <= i < |es| => es[i].name)
  }

  /** Names non-decreasing under strcmp. */
  predicate NamesSorted(ns: seq<Name>) {
    forall i, j :: 0 <= i < j < |ns| ==> StrCmp(ns[i], ns[j]) <= 0
  }

  /** Entries non-decreasing by name under strcmp. */
  predicate SortedByName(es: seq<Entry>) {
    NamesSorted(NamesOf(es))
  }

  // ---------------------------------------------------------------------------
  // Pass 1 of save: the deduplicated key segment and each record's disk offset.

  /** Record i repeats the name of record i - 1 (the `redundant` test of save). */
  predicate Redundant(ns: seq<Name>, i: nat) {
    0 < i < |ns| && ns[i] == ns[i - 1]
  }

  /** The names save writes to the key segment: each name that differs from its
      predecessor. */
  function Dedup(ns: seq<Name>): (ds: seq<Name>) {
    if ns == [] then []
    else
      var n := |ns| - 1;
      Dedup(ns[..n]) + (if Redundant(ns, n) then [] else [ns[n]])
  }

  /** The key segment save writes for records carrying the names ns, in order. */
  function Segment(ns: seq<Name>): (seg: seq<byte>) {
    ArenaOf(Dedup(ns))
  }

  /** The disk offset save assigns to record i: the segment length at the time
      its name is written when the name is fresh, or the previous record's disk
      offset when the name repeats. */
  function DiskOffset(ns: seq<Name>, i: nat): (d: nat)
    requires i < |ns|
  {
    if Redundant(ns, i) then DiskOffset(ns, i - 1) else |Segment(ns[..i])|
  }

  /** The disk offsets of all records. */
  function DiskOffsets(ns: seq<Name>): (ds: seq<nat>)
    ensures |ds| == |ns|
    ensures forall i :: 0 <= i < |ns| ==> ds[i] == DiskOffset(ns, i)
  {
    seq(|ns|, i requires 0 <= i < |ns| => DiskOffset(ns, i))
  }

  /** A record's disk offset depends only on the records up to it. */
  lemma {:induction false} DiskOffsetOfPrefix(ns: seq<Name>, m: nat, i: nat)
    requires i < m <= |ns|
    ensures DiskOffset(ns[..m], i) == DiskOffset(ns, i)
  {
    var pre := ns[..m];
    assert Redundant(pre, i) == Redundant(ns, i);
    if Redundant(ns, i) {
      DiskOffsetOfPrefix(ns, m, i - 1);
    } else {
      assert pre[..i] == ns[..i];
    }
  }

  /** The key segment grows by one name and its NUL exactly at a fresh name. */
  lemma SegmentStep(ns: seq<Name>)
    requires ns != []
    ensures var n := |ns| - 1;
      Segment(ns) == Segment(ns[..n]) + (if Redundant(ns, n) then [] else ns[n] + [0])
  {
    var n := |ns| - 1;
    var d := Dedup(ns[..n]);
    if Redundant(ns, n) {
      assert Dedup(ns) == d + [];
      assert d + [] == d;
    } else {
      assert Dedup(ns) == d + [ns[n]];
      assert (d + [ns[n]])[..|d|] == d;
      assert ArenaOf(d + [ns[n]]) == ArenaOf(d) + ns[n] + [0];
    }
  }

  /** Pass 1 of save, one record further: how the segment and the disk offsets of
      the first i + 1 names extend those of the first i. */
  lemma PrefixStep(ns: seq<Name>, i: nat)
    requires i < |ns|
    ensures Segment(ns[..i + 1]) == Segment(ns[..i]) + (if Redundant(ns, i) then [] else ns[i] + [0])
    ensures DiskOffsets(ns)[i] == if Redundant(ns, i) then DiskOffsets(ns)[i - 1] else |Segment(ns[..i])|
  {
    var prefix := ns[..i + 1];
    assert prefix[..i] == ns[..i] && prefix[i] == ns[i];
    assert Redundant(prefix, i) == Redundant(ns, i);
    SegmentStep(prefix);
  }

  /** The key segment of the first m names is a prefix of the key segment. */
  lemma {:induction false} SegmentPrefix(ns: seq<Name>, m: nat)
    requires m <= |ns|
    ensures Segment(ns[..m]) <= Segment(ns)
    decreases |ns| - m
  {
    if m < |ns| {
      SegmentPrefix(ns, m + 1);
      PrefixStep(ns, m);
    } else {
      assert ns[..m] == ns;
    }
  }

  /** A fresh name sits in the key segment right after the segment of the names
      before it, followed by its NUL. */
  lemma ResolveFresh(ns: seq<Name>, i: nat)
    requires i < |ns| && !Redundant(ns, i)
    ensures DiskOffsets(ns)[i] + |ns[i]| < |Segment(ns)|
    ensures CStringAt(Segment(ns), DiskOffsets(ns)[i]) == ns[i]
  {
    var seg, pre := Segment(ns), Segment(ns[..i]);
    PrefixStep(ns, i);
    SegmentPrefix(ns, i + 1);
    var k := |pre| + |ns[i]| + 1;
    assert seg[..k] == pre + ns[i] + [0];
    assert seg == pre + ns[i] + [0] + seg[k..];
    CStringAtSplice(pre, ns[i], seg[k..]);
  }

  /** Every disk offset points into the key segment at the record's own name,
      followed by its NUL. */
  lemma {:induction false} DiskOffsetsResolve(ns: seq<Name>, i: nat)
    requires i < |ns|
    ensures DiskOffsets(ns)[i] + |ns[i]| < |Segment(ns)|
    ensures CStringAt(Segment(ns), DiskOffsets(ns)[i]) == ns[i]
  {
    if Redundant(ns, i) {
      DiskOffsetsResolve(ns, i - 1);
      assert DiskOffsets(ns)[i] == DiskOffsets(ns)[i - 1];
    } else {
      ResolveFresh(ns, i);
    }
  }

  /** Disk offsets of a prefix are a prefix of the disk offsets. */
  lemma DiskOffsetsPrefix(ns: seq<Name>, m: nat)
    requires m <= |ns|
    ensures DiskOffsets(ns[..m]) == DiskOffsets(ns)[..m]
  {
    forall i | 0 <= i < m
      ensures DiskOffsets(ns[..m])[i] == DiskOffsets(ns)[i]
    {
      DiskOffsetOfPrefix(ns, m, i);
    }
  }

  /** A record whose name repeats its predecessor's shares its disk offset. */
  lemma DiskOffsetRepeats(ns: seq<Name>, k: nat)
    requires Redundant(ns, k)
    ensures DiskOffsets(ns)[k] == DiskOffsets(ns)[k - 1]
  {
  }

  /** In sorted names, every name between two equal names equals them. */
  lemma SortedBetween(ns: seq<Name>, i: nat, k: nat, j: nat)
    requires NamesSorted(ns) && i <= k <= j < |ns| && ns[i] == ns[j]
    ensures ns[k] == ns[i]
  {
    if i < k < j {
      StrCmpBothWays(ns[i], ns[k]);
    }
  }

  /** After sorting, records with equal names carry equal disk offsets. */
  lemma {:induction false} EqualNamesShareDiskOffset(ns: seq<Name>, i: nat, j: nat)
    requires NamesSorted(ns) && i < j < |ns| && ns[i] == ns[j]
    ensures DiskOffsets(ns)[i] == DiskOffsets(ns)[j]
    decreases j - i
  {
    SortedBetween(ns, i, j - 1, j);
    assert Redundant(ns, j);
    DiskOffsetRepeats(ns, j);
    if i < j - 1 {
      EqualNamesShareDiskOffset(ns, i, j - 1);
    }
  }

  /** After sorting, the disk offset identifies the name: records carry equal disk
      offsets exactly when their names are equal. */
  lemma DiskOffsetsIdentifyNames(ns: seq<Name>, i: nat, j: nat)
    requires NamesSorted(ns) && i < |ns| && j < |ns|
    ensures (DiskOffsets(ns)[i] == DiskOffsets(ns)[j]) == (ns[i] == ns[j])
  {
    DiskOffsetsResolve(ns, i);
    DiskOffsetsResolve(ns, j);
    if ns[i] == ns[j] {
      if i < j {
        EqualNamesShareDiskOffset(ns, i, j);
      } else if j < i {
        EqualNamesShareDiskOffset(ns, j, i);
      }
    }
  }

  /** Every name of the deduplicated list occurs among the record names. */
  lemma {:induction false} DedupFromNames(ns: seq<Name>, x: Name)
    requires x in Dedup(ns)
    ensures x in ns
    decreases |ns|
  {
    var n := |ns| - 1;
    if x in Dedup(ns[..n]) {
      DedupFromNames(ns[..n], x);
    }
  }

  /** Every record name occurs in the deduplicated list. */
  lemma {:induction false} NamesInDedup(ns: seq<Name>, x: Name)
    requires x in ns
    ensures x in Dedup(ns)
    decreases |ns|
  {
    var n := |ns| - 1;
    if x == ns[n] && Redundant(ns, n) {
      assert ns[n - 1] in ns[..n];
      NamesInDedup(ns[..n], ns[n - 1]);
    } else if x != ns[n] {
      assert x in ns[..n];
      NamesInDedup(ns[..n], x);
    }
  }

  /** For sorted names the deduplicated list is strictly increasing, so it holds
      each distinct name exactly once. */
  lemma {:induction false} DedupStrictlySorted(ns: seq<Name>)
    requires NamesSorted(ns)
    ensures forall a, b :: 0 <= a < b < |Dedup(ns)| ==> StrCmp(Dedup(ns)[a], Dedup(ns)[b]) < 0
    decreases |ns|
  {
    if ns != [] {
      var n := |ns| - 1;
      var init := ns[..n];
      assert NamesSorted(init);
      DedupStrictlySorted(init);
      if !Redundant(ns, n) {
        var d := Dedup(init);
        forall a | 0 <= a < |d|
          ensures StrCmp(d[a], ns[n]) < 0
        {
          assert d[a] in d;
          DedupFromNames(init, d[a]);
          var k :| 0 <= k < n && init[k] == d[a];
          if d[a] == ns[n] {
            SortedBetween(ns, k, n - 1, n);
            assert false;
          }
        }
      }
    }
  }

  /** Total bytes of names written with their NULs. */
  function NameBytes(ns: seq<Name>): (total: nat) {
    if ns == [] then 0 else NameBytes(ns[..|ns| - 1]) + |ns[|ns| - 1]| + 1
  }

  /** The key segment of sorted records holds each distinct name exactly once, and
      its length (the value patched into the header) is the sum of len + 1 over
      the distinct names. */
  lemma {:induction false} SegmentHoldsEachNameOnce(ns: seq<Name>)
    requires NamesSorted(ns)
    ensures forall x :: x in Dedup(ns) <==> x in ns
    ensures forall a, b :: 0 <= a < b < |Dedup(ns)| ==> Dedup(ns)[a] != Dedup(ns)[b]
    ensures |Segment(ns)| == NameBytes(Dedup(ns))
  {
    forall x
      ensures x in Dedup(ns) <==> x in ns
    {
      if x in Dedup(ns) { DedupFromNames(ns, x); }
      if x in ns { NamesInDedup(ns, x); }
    }
    DedupStrictlySorted(ns);
    ArenaLength(Dedup(ns));
  }

  /** The arena is as long as its names with their NULs. */
  lemma {:induction false} ArenaLength(ns: seq<Name>)
    ensures |ArenaOf(ns)| == NameBytes(ns)
  {
    if ns != [] {
      ArenaLength(ns[..|ns| - 1]);
    }
  }

  // ---------------------------------------------------------------------------
  // Pass 2 of save and the header.

  /** A record as stored on disk: the name's offset in the key segment and the
      BAM file offset. */
  datatype DiskRecord = DiskRecord(nameOffset: nat, fileOffset: Word)

  /** The records save writes, in the order of es. */
  function DiskRecordsOf(es: seq<Entry>): (ds: seq<DiskRecord>)
    ensures |ds| == |es|
  {
    var offs := DiskOffsets(NamesOf(es));
    seq(|es|, i requires 0 <= i < |es| => DiskRecord(offs[i], es[i].fileOffset))
  }

  function EncodeRecord(d: DiskRecord): (bs: seq<byte>)
    ensures |bs| == RECORD_BYTES
  {
    WordBytes(d.nameOffset) + WordBytes(d.fileOffset)
  }

  function EncodeRecords(ds: seq<DiskRecord>): (bs: seq<byte>)
    ensures |bs| == RECORD_BYTES * |ds|
  {
    if ds == [] then [] else EncodeRecords(ds[..|ds| - 1]) + EncodeRecord(ds[|ds| - 1])
  }

  function Header(segmentBytes: nat, count: nat): (bs: seq<byte>)
    ensures |bs| == HEADER_BYTES
  {
    WordBytes(FILE_VERSION) + WordBytes(segmentBytes) + WordBytes(count)
  }

  /** The index file save writes for records es (already sorted by save). */
  function Serialize(es: seq<Entry>): (file: seq<byte>)
    ensures |file| == HEADER_BYTES + |Segment(NamesOf(es))| + RECORD_BYTES * |es|
  {
    var seg := Segment(NamesOf(es));
    Header(|seg|, |es|) + seg + EncodeRecords(DiskRecordsOf(es))
  }

  // ---------------------------------------------------------------------------
  // Load.

  /** A record after load: the position in the loaded key segment where its name
      starts (the pointer readnames + disk offset) and its BAM file offset. */
  datatype LoadedRecord = LoadedRecord(name: nat, fileOffset: Word)

  /** A loaded index: the key segment as read, and the resolved records. */
  datatype LoadedIndex = LoadedIndex(readnames: seq<byte>, records: seq<LoadedRecord>)

  datatype LoadError = IndexNotFound | ShortHeader | ShortNames | ShortRecords

  datatype LoadResult = Loaded(index: LoadedIndex) | Failed(error: LoadError)

  function DecodeRecord(bs: seq<byte>, p: nat): (d: DiskRecord)
    requires p + RECORD_BYTES <= |bs|
  {
    DiskRecord(WordAt(bs, p), WordAt(bs, p + 8))
  }

  /** The first n records stored in bs. */
  function DecodeRecords(bs: seq<byte>, n: nat): (ds: seq<DiskRecord>)
    requires RECORD_BYTES * n <= |bs|
    ensures |ds| == n
  {
    if n == 0 then [] else DecodeRecords(bs, n - 1) + [DecodeRecord(bs, RECORD_BYTES * (n - 1))]
  }

  /** The phase change of load: a disk offset becomes a reference into the
      loaded key segment. */
  function Resolve(d: DiskRecord): (r: LoadedRecord)
    ensures r.name == d.nameOffset && r.fileOffset == d.fileOffset
  {
    LoadedRecord(d.nameOffset, d.fileOffset)
  }

  /** Load resolves every record read, in order. */
  function ResolveAll(ds: seq<DiskRecord>): (rs: seq<LoadedRecord>)
    ensures |rs| == |ds|
    ensures forall i :: 0 <= i < |ds| ==> rs[i] == Resolve(ds[i])
  {
    seq(|ds|, i requires 0 <= i < |ds| => Resolve(ds[i]))
  }

  /** What load makes of the bytes of an index file, with every short read
      rejected. The version word is read and ignored. */
  function DecodeIndex(file: seq<byte>): (r: LoadResult)
    ensures r.Failed? ==> r.error != IndexNotFound
    ensures r.Loaded? ==> (|file| >= HEADER_BYTES && HEADER_BYTES + WordAt(file, 8) <= |file|
      && r.index.readnames == file[HEADER_BYTES..HEADER_BYTES + WordAt(file, 8)]
      && |r.index.records| == WordAt(file, 16))
    ensures r.Loaded? <==> (|file| >= HEADER_BYTES
      && HEADER_BYTES + WordAt(file, 8) + RECORD_BYTES * WordAt(file, 16) <= |file|)
    ensures r.Loaded? ==>
      r.index.records == ResolveAll(DecodeRecords(file[HEADER_BYTES + WordAt(file, 8)..], WordAt(file, 16)))
  {
    if |file| < HEADER_BYTES then Failed(ShortHeader)
    else
      var segmentBytes, count := WordAt(file, 8), WordAt(file, 16);
      if |file| - HEADER_BYTES < segmentBytes then Failed(ShortNames)
      else
        var body := file[HEADER_BYTES + segmentBytes..];
        if |body| < RECORD_BYTES * count then Failed(ShortRecords)
        else
          Loaded(LoadedIndex(file[HEADER_BYTES..HEADER_BYTES + segmentBytes],
                             ResolveAll(DecodeRecords(body, count))))
  }

  /** The read name of loaded record i. */
  function NameOf(idx: LoadedIndex, i: nat): (n: Name)
    requires i < |idx.records|
  {
    CStringAt(idx.readnames, idx.records[i].name)
  }

  /** The (name, file offset) pairs a loaded index holds, in order. */
  function LoadedEntries(idx: LoadedIndex): (es: seq<Entry>)
    ensures |es| == |idx.records|
  {
    seq(|idx.records|, i requires 0 <= i < |idx.records| => Entry(NameOf(idx, i), idx.records[i].fileOffset))
  }

  /** Loaded records non-decreasing by name: the order bsearch needs. */
  predicate IndexSorted(idx: LoadedIndex) {
    forall i, j :: 0 <= i < j < |idx.records| ==> StrCmp(NameOf(idx, i), NameOf(idx, j)) <= 0
  }

  /** Records with equal names point at the same place in the key segment, which
      is what lets the query compare names by pointer. */
  predicate NamesShared(idx: LoadedIndex) {
    forall i, j :: 0 <= i < |idx.records| && 0 <= j < |idx.records| && NameOf(idx, i) == NameOf(idx, j)
      ==> idx.records[i].name == idx.records[j].name
  }

  // ---------------------------------------------------------------------------
  // Round trip.

  /** Records decoded from a prefix are unaffected by the bytes after it. */
  lemma {:induction false} DecodeRecordsPrefix(bs: seq<byte>, tail: seq<byte>, n: nat)
    requires RECORD_BYTES * n <= |bs|
    ensures DecodeRecords(bs + tail, n) == DecodeRecords(bs, n)
  {
    if n > 0 {
      DecodeRecordsPrefix(bs, tail, n - 1);
      var p := RECORD_BYTES * (n - 1);
      assert (bs + tail)[p..p + 8] == bs[p..p + 8];
      assert (bs + tail)[p + 8..p + 16] == bs[p + 8..p + 16];
    }
  }

  /** A record that fits size_t words reads back unchanged. */
  lemma DecodeEncodeRecord(pre: seq<byte>, d: DiskRecord)
    requires d.nameOffset < WORD_LIMIT
    ensures DecodeRecord(pre + EncodeRecord(d), |pre|) == d
  {
    var a, b := WordBytes(d.nameOffset), WordBytes(d.fileOffset);
    assert pre + EncodeRecord(d) == pre + a + b;
    WordRoundTrip(pre, d.nameOffset, b);
    assert pre + EncodeRecord(d) == (pre + a) + b + [];
    WordRoundTrip(pre + a, d.fileOffset, []);
  }

  /** Records written by pass 2 read back unchanged. */
  lemma {:induction false} DecodeEncodeRecords(ds: seq<DiskRecord>)
    requires forall i :: 0 <= i < |ds| ==> ds[i].nameOffset < WORD_LIMIT
    ensures DecodeRecords(EncodeRecords(ds), |ds|) == ds
  {
    if ds != [] {
      var n := |ds| - 1;
      var init := EncodeRecords(ds[..n]);
      DecodeEncodeRecords(ds[..n]);
      DecodeRecordsPrefix(init, EncodeRecord(ds[n]), n);
      DecodeEncodeRecord(init, ds[n]);
    }
  }

  /** The three header words read back as written. */
  lemma HeaderRoundTrip(segmentBytes: Word, count: Word, rest: seq<byte>)
    ensures WordAt(Header(segmentBytes, count) + rest, 0) == FILE_VERSION
    ensures WordAt(Header(segmentBytes, count) + rest, 8) == segmentBytes
    ensures WordAt(Header(segmentBytes, count) + rest, 16) == count
  {
    var v, s, c := WordBytes(FILE_VERSION), WordBytes(segmentBytes), WordBytes(count);
    assert Header(segmentBytes, count) + rest == [] + v + (s + c + rest);
    WordRoundTrip([], FILE_VERSION, s + c + rest);
    assert Header(segmentBytes, count) + rest == v + s + (c + rest);
    WordRoundTrip(v, segmentBytes, c + rest);
    assert Header(segmentBytes, count) + rest == (v + s) + c + rest;
    WordRoundTrip(v + s, count, rest);
  }

  /** The header save writes: version 1, the key-segment length (for sorted
      records, the sum of len + 1 over the distinct names) and the record
      count, whenever these fit size_t. */
  lemma SavedHeader(es: seq<Entry>)
    requires |Segment(NamesOf(es))| < WORD_LIMIT && |es| < WORD_LIMIT
    ensures WordAt(Serialize(es), 0) == FILE_VERSION
    ensures WordAt(Serialize(es), 8) == |Segment(NamesOf(es))|
    ensures WordAt(Serialize(es), 16) == |es|
    ensures SortedByName(es) ==> WordAt(Serialize(es), 8) == NameBytes(Dedup(NamesOf(es)))
  {
    var seg := Segment(NamesOf(es));
    var rest := seg + EncodeRecords(DiskRecordsOf(es));
    assert Serialize(es) == Header(|seg|, |es|) + rest;
    HeaderRoundTrip(|seg|, |es|, rest);
    if SortedByName(es) {
      SegmentHoldsEachNameOnce(NamesOf(es));
    }
  }

  /** A file laid out as save lays it out (header, key segment, records) loads
      as that key segment and those records, whenever the sizes fit size_t. */
  lemma DecodeLaidOut(seg: seq<byte>, ds: seq<DiskRecord>)
    requires |seg| < WORD_LIMIT && |ds| < WORD_LIMIT
    requires forall i :: 0 <= i < |ds| ==> ds[i].nameOffset < WORD_LIMIT
    ensures DecodeIndex(Header(|seg|, |ds|) + seg + EncodeRecords(ds))
         == Loaded(LoadedIndex(seg, ResolveAll(ds)))
  {
    var recs := EncodeRecords(ds);
    var header := Header(|seg|, |ds|);
    SectionsOf(header, seg, recs);
    HeaderRoundTrip(|seg|, |ds|, seg + recs);
    DecodeEncodeRecords(ds);
  }

  /** The sections of a file: what follows the header up to the announced
      length, and the rest. */
  lemma SectionsOf(header: seq<byte>, seg: seq<byte>, recs: seq<byte>)
    requires |header| == HEADER_BYTES
    ensures header + seg + recs == header + (seg + recs)
    ensures (header + seg + recs)[HEADER_BYTES..HEADER_BYTES + |seg|] == seg
    ensures (header + seg + recs)[HEADER_BYTES + |seg|..] == recs
  {
  }

  /** Loading what save wrote succeeds and yields the key segment and the records
      with their disk offsets resolved, whenever the sizes fit size_t. */
  lemma DecodeSerialized(es: seq<Entry>)
    requires |Segment(NamesOf(es))| < WORD_LIMIT && |es| < WORD_LIMIT
    ensures DecodeIndex(Serialize(es))
         == Loaded(LoadedIndex(Segment(NamesOf(es)), ResolveAll(DiskRecordsOf(es))))
  {
    var ns := NamesOf(es);
    var ds := DiskRecordsOf(es);
    forall i | 0 <= i < |ds|
      ensures ds[i].nameOffset < WORD_LIMIT
    {
      DiskOffsetsResolve(ns, i);
    }
    DecodeLaidOut(Segment(ns), ds);
  }

  /** load(save(es)): every loaded record has the name and file offset of the
      saved one, in the same order; and when es is sorted by name (as save
      leaves it) the loaded index is sorted and records with equal names share
      one name pointer. */
  lemma LoadAfterSave(es: seq<Entry>)
    requires |Segment(NamesOf(es))| < WORD_LIMIT && |es| < WORD_LIMIT
    ensures DecodeIndex(Serialize(es)).Loaded?
    ensures LoadedEntries(DecodeIndex(Serialize(es)).index) == es
    ensures SortedByName(es) ==> IndexSorted(DecodeIndex(Serialize(es)).index)
    ensures SortedByName(es) ==> NamesShared(DecodeIndex(Serialize(es)).index)
  {
    DecodeSerialized(es);
    var idx := LoadedIndex(Segment(NamesOf(es)), ResolveAll(DiskRecordsOf(es)));
    LoadedNames(es, idx);
    LoadedEntriesAre(es, idx);
    if SortedByName(es) {
      LoadedSorted(es, idx);
      LoadedShared(es, idx);
    }
  }

  /** A loaded index whose records carry the names and file offsets of es, in
      order, holds exactly the entries es. */
  lemma LoadedEntriesAre(es: seq<Entry>, idx: LoadedIndex)
    requires |idx.records| == |es|
    requires forall i :: 0 <= i < |es| ==> NameOf(idx, i) == es[i].name
    requires forall i :: 0 <= i < |es| ==> idx.records[i].fileOffset == es[i].fileOffset
    ensures LoadedEntries(idx) == es
  {
  }

  /** Records loaded with the names of sorted entries are sorted. */
  lemma LoadedSorted(es: seq<Entry>, idx: LoadedIndex)
    requires SortedByName(es) && |idx.records| == |es|
    requires forall i :: 0 <= i < |es| ==> NameOf(idx, i) == es[i].name
    ensures IndexSorted(idx)
  {
    var ns := NamesOf(es);
    forall i, j | 0 <= i < j < |idx.records|
      ensures StrCmp(NameOf(idx, i), NameOf(idx, j)) <= 0
    {
      assert NameOf(idx, i) == ns[i] && NameOf(idx, j) == ns[j];
    }
  }

  /** Records loaded from sorted entries, each pointing at its disk offset, share
      one name pointer per name. */
  lemma LoadedShared(es: seq<Entry>, idx: LoadedIndex)
    requires SortedByName(es) && |idx.records| == |es|
    requires forall i :: 0 <= i < |es| ==> NameOf(idx, i) == es[i].name
    requires forall i :: 0 <= i < |es| ==> idx.records[i].name == DiskOffsets(NamesOf(es))[i]
    ensures NamesShared(idx)
  {
    var ns := NamesOf(es);
    forall i, j | 0 <= i < |es| && 0 <= j < |es| && NameOf(idx, i) == NameOf(idx, j)
      ensures idx.records[i].name == idx.records[j].name
    {
      DiskOffsetsIdentifyNames(ns, i, j);
    }
  }

  /** Each loaded record's name pointer reads back the saved record's name. */
  lemma LoadedNames(es: seq<Entry>, idx: LoadedIndex)
    requires idx == LoadedIndex(Segment(NamesOf(es)), ResolveAll(DiskRecordsOf(es)))
    ensures forall i :: 0 <= i < |es| ==> NameOf(idx, i) == es[i].name
    ensures |idx.records| == |es|
    ensures forall i :: 0 <= i < |es| ==> idx.records[i].name == DiskOffsets(NamesOf(es))[i]
    ensures forall i :: 0 <= i < |es| ==> idx.records[i].fileOffset == es[i].fileOffset
  {
    forall i | 0 <= i < |es|
      ensures NameOf(idx, i) == es[i].name
    {
      DiskOffsetsResolve(NamesOf(es), i);
    }
  }

  // ---------------------------------------------------------------------------
  // The read checks load performs as written.

  /** Whether every fread of load reports success, as the source checks them:
      fread returns the number of whole items read, and returns 0 when the item
      size is 0 (ISO C11 7.21.8.1). The key segment is read as one item of
      segment-length bytes; the records as sizeof(record) items of
      record-count bytes each (the size and count arguments are swapped).
      These checks agree with the corrected decoder except on an empty key
      segment, an empty record section and a truncated record section. */
  predicate ReadsSucceedAsWritten(file: seq<byte>): (ok: bool)
    ensures ok ==> |file| >= HEADER_BYTES && HEADER_BYTES + WordAt(file, 8) <= |file|
    ensures ok && HEADER_BYTES + WordAt(file, 8) + RECORD_BYTES * WordAt(file, 16) <= |file|
            ==> DecodeIndex(file).Loaded?
    ensures DecodeIndex(file).Loaded? && 0 < WordAt(file, 8) && 0 < WordAt(file, 16) ==> ok
  {
    |file| >= HEADER_BYTES
    && var segmentBytes, count := WordAt(file, 8), WordAt(file, 16);
    && 0 < segmentBytes <= |file| - HEADER_BYTES
    && 0 < count <= |file| - HEADER_BYTES - segmentBytes
  }

  /** As written, load rejects the index save writes for a BAM file with no
      records, although that index is well formed. */
  lemma EmptyIndexRejectedAsWritten()
    ensures !ReadsSucceedAsWritten(Serialize([]))
    ensures DecodeIndex(Serialize([])) == Loaded(LoadedIndex([], []))
  {
    LoadAfterSave([]);
    DecodeSerialized([]);
    assert Segment(NamesOf([])) == [];
    HeaderRoundTrip(0, 0, []);
    assert Serialize([]) == Header(0, 0) + [];
  }

  /** As written, load accepts an index file whose header promises one record
      but whose record section holds a single byte, so the record it hands on was
      never read. */
  lemma TruncatedRecordsAcceptedAsWritten()
    ensures ReadsSucceedAsWritten(Header(2, 1) + [65, 0, 0])
    ensures DecodeIndex(Header(2, 1) + [65, 0, 0]) == Failed(ShortRecords)
  {
    HeaderRoundTrip(2, 1, [65, 0, 0]);
  }
}
