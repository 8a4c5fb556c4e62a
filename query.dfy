/** The range query of bri get over a loaded index: a binary search for any
    record carrying the query name, then a walk backward and forward, comparing
    name pointers, to the maximal run of records with that name. The index is a
    value: the query cannot change it. */
module Query {
  import opened Bytes
  import opened Layout

  /** compare_records_by_readname_ptr with the query record as its first
      argument, as bsearch passes it: strcmp of the query name and the name
      record i points at. */
  function CompareQuery(idx: LoadedIndex, q: Name, i: nat): (c: int)
    requires i < |idx.records|
    ensures (c == 0) == (q == NameOf(idx, i))
    ensures c == -StrCmp(NameOf(idx, i), q)
  {
    StrCmpAntisymmetric(NameOf(idx, i), q);
    StrCmp(q, NameOf(idx, i))
  }

  /** Some record names q. */
  predicate Occurs(idx: LoadedIndex, q: Name) {
    exists i :: 0 <= i < |idx.records| && NameOf(idx, i) == q
  }

  /** Records start to stop - 1 all carry the name q, and the records just
      outside carry other names: the maximal run of q. */
  predicate IsRun(idx: LoadedIndex, q: Name, start: nat, stop: nat) {
    && start < stop <= |idx.records|
    && (forall i :: start <= i < stop ==> NameOf(idx, i) == q)
    && (start == 0 || NameOf(idx, start - 1) != q)
    && (stop == |idx.records| || NameOf(idx, stop) != q)
  }

  /** The answer of get_range: no record (both pointers NULL), or the records
      from start up to, not including, stop. */
  datatype Range = Absent | Run(start: nat, stop: nat)

  /** The names of the records below i all sort before q. */
  predicate AllBefore(idx: LoadedIndex, q: Name, i: nat) {
    forall k :: 0 <= k < i && k < |idx.records| ==> StrCmp(NameOf(idx, k), q) < 0
  }

  /** The names of the records from i on all sort after q. */
  predicate AllAfter(idx: LoadedIndex, q: Name, i: nat) {
    forall k :: i <= k < |idx.records| ==> StrCmp(q, NameOf(idx, k)) < 0
  }

  /** When q sorts before the name of record mid, it sorts before the names of
      all later records. */
  lemma AfterFrom(idx: LoadedIndex, q: Name, mid: nat, hi: nat)
    requires IndexSorted(idx) && mid < |idx.records|
    requires StrCmp(q, NameOf(idx, mid)) < 0 && AllAfter(idx, q, hi)
    ensures AllAfter(idx, q, mid)
  {
    forall k | mid < k < |idx.records|
      ensures StrCmp(q, NameOf(idx, k)) < 0
    {
      StrCmpStrict(q, NameOf(idx, mid), NameOf(idx, k));
    }
  }

  /** When the name of record mid sorts before q, so do the names of all
      earlier records. */
  lemma BeforeUpTo(idx: LoadedIndex, q: Name, lo: nat, mid: nat)
    requires IndexSorted(idx) && lo <= mid < |idx.records|
    requires StrCmp(NameOf(idx, mid), q) < 0 && AllBefore(idx, q, lo)
    ensures AllBefore(idx, q, mid + 1)
  {
    forall k | 0 <= k < mid
      ensures StrCmp(NameOf(idx, k), q) < 0
    {
      StrCmpStrict(NameOf(idx, k), NameOf(idx, mid), q);
    }
  }

  /** bsearch over the records sorted by name (section 7.22.5.1 of ISO C11): a
      record carrying the query name when there is one, and no record
      otherwise. */
  method BSearch(idx: LoadedIndex, q: Name) returns (found: bool, hit: nat)
    requires IndexSorted(idx)
    ensures found == Occurs(idx, q)
    ensures found ==> hit < |idx.records| && NameOf(idx, hit) == q
  {
    var lo, hi := 0, |idx.records|;
    while lo < hi
      invariant 0 <= lo <= hi <= |idx.records|
      invariant AllBefore(idx, q, lo) && AllAfter(idx, q, hi)
    {
      var mid := lo + (hi - lo) / 2;
      var c := CompareQuery(idx, q, mid);
      if c == 0 {
        return true, mid;
      } else if c < 0 {
        AfterFrom(idx, q, mid, hi);
        hi := mid;
      } else {
        BeforeUpTo(idx, q, lo, mid);
        lo := mid + 1;
      }
    }
    assert forall k :: 0 <= k < |idx.records| ==> NameOf(idx, k) != q by {
      forall k | 0 <= k < |idx.records|
        ensures NameOf(idx, k) != q
      {
        if k < lo {
          assert StrCmp(NameOf(idx, k), q) < 0;
        } else {
          assert StrCmp(q, NameOf(idx, k)) < 0;
        }
      }
    }
    return false, 0;
  }

  /** Under the sharing of names that save establishes, two records point at the
      same place in the key segment exactly when they carry the same name. */
  lemma PointerEqualityIsNameEquality(idx: LoadedIndex, i: nat, j: nat)
    requires NamesShared(idx) && i < |idx.records| && j < |idx.records|
    ensures (idx.records[i].name == idx.records[j].name) == (NameOf(idx, i) == NameOf(idx, j))
  {
    if NameOf(idx, i) == NameOf(idx, j) {
      assert idx.records[i].name == idx.records[j].name;
    }
  }

  /** bam_read_idx_get_range: Absent when no record carries q; otherwise the
      maximal run of records carrying q, found around the bsearch hit by moving
      back while the previous record has the same name pointer and forward
      while the next one does. */
  method GetRange(idx: LoadedIndex, q: Name) returns (r: Range)
    requires IndexSorted(idx) && NamesShared(idx)
    ensures r.Absent? == !Occurs(idx, q)
    ensures r.Run? ==> IsRun(idx, q, r.start, r.stop)
  {
    var found, hit := BSearch(idx, q);
    if !found {
      return Absent;
    }
    var sri := RunStart(idx, hit);
    var eri := RunStop(idx, sri, hit);
    assert NameOf(idx, sri) == NameOf(idx, hit);
    PointerRunIsNameRun(idx, q, sri, eri);
    return Run(sri, eri);
  }

  /** The backward walk of get_range: from the hit, step back while the
      previous record has the same name pointer. */
  method RunStart(idx: LoadedIndex, hit: nat) returns (sri: nat)
    requires hit < |idx.records|
    ensures sri <= hit
    ensures forall i :: sri <= i <= hit ==> idx.records[i].name == idx.records[hit].name
    ensures sri == 0 || idx.records[sri - 1].name != idx.records[hit].name
  {
    sri := hit;
    while sri > 0 && idx.records[sri].name == idx.records[sri - 1].name
      invariant sri <= hit
      invariant forall i :: sri <= i <= hit ==> idx.records[i].name == idx.records[hit].name
    {
      sri := sri - 1;
    }
  }

  /** The forward walk of get_range, a do-while: step past the hit, and on while
      the next record has the same name pointer as the first of the run. */
  method RunStop(idx: LoadedIndex, sri: nat, hit: nat) returns (eri: nat)
    requires sri <= hit < |idx.records|
    requires forall i :: sri <= i <= hit ==> idx.records[i].name == idx.records[hit].name
    ensures hit < eri <= |idx.records|
    ensures forall i :: sri <= i < eri ==> idx.records[i].name == idx.records[sri].name
    ensures eri == |idx.records| || idx.records[eri].name != idx.records[sri].name
  {
    eri := hit + 1;
    while eri < |idx.records| && idx.records[eri].name == idx.records[sri].name
      invariant hit < eri <= |idx.records|
      invariant forall i :: sri <= i < eri ==> idx.records[i].name == idx.records[sri].name
    {
      eri := eri + 1;
    }
  }

  /** Why comparing pointers is enough: when equal names share one place in the
      key segment, a maximal run of equal name pointers around a record named q
      is the maximal run of q. */
  lemma PointerRunIsNameRun(idx: LoadedIndex, q: Name, sri: nat, eri: nat)
    requires NamesShared(idx) && sri < eri <= |idx.records| && NameOf(idx, sri) == q
    requires forall i :: sri <= i < eri ==> idx.records[i].name == idx.records[sri].name
    requires sri == 0 || idx.records[sri - 1].name != idx.records[sri].name
    requires eri == |idx.records| || idx.records[eri].name != idx.records[sri].name
    ensures IsRun(idx, q, sri, eri)
  {
    forall i | sri <= i < eri
      ensures NameOf(idx, i) == q
    {
      assert idx.records[i].name == idx.records[sri].name;
    }
    if sri > 0 {
      PointerEqualityIsNameEquality(idx, sri - 1, sri);
    }
    if eri < |idx.records| {
      PointerEqualityIsNameEquality(idx, eri, sri);
    }
  }

  /** In sorted records, a maximal run of q holds every record carrying q. The
      run found for the name of any record therefore contains that record:
      querying each distinct name once visits every record. */
  lemma RunHoldsAllMatches(idx: LoadedIndex, q: Name, start: nat, stop: nat, i: nat)
    requires IndexSorted(idx) && IsRun(idx, q, start, stop)
    requires i < |idx.records| && NameOf(idx, i) == q
    ensures start <= i < stop
  {
    if i < start {
      NoMatchBefore(idx, q, start, i);
    } else if stop <= i {
      NoMatchAfter(idx, q, stop, i);
    }
  }

  /** Below a run start whose predecessor is not named q, no record is named q:
      such a record would squeeze the predecessor's name between two copies of
      q. */
  lemma NoMatchBefore(idx: LoadedIndex, q: Name, start: nat, i: nat)
    requires IndexSorted(idx) && i < start < |idx.records|
    requires NameOf(idx, start) == q && NameOf(idx, start - 1) != q
    ensures NameOf(idx, i) != q
  {
    var m := NameOf(idx, start - 1);
    if NameOf(idx, i) == q {
      assert StrCmp(q, m) <= 0 && StrCmp(m, q) <= 0;
      StrCmpBothWays(m, q);
    }
  }

  /** From a run stop whose record is not named q, no later record is named q. */
  lemma NoMatchAfter(idx: LoadedIndex, q: Name, stop: nat, i: nat)
    requires IndexSorted(idx) && 0 < stop <= i < |idx.records|
    requires NameOf(idx, stop - 1) == q && NameOf(idx, stop) != q
    ensures NameOf(idx, i) != q
  {
    var m := NameOf(idx, stop);
    if stop < i && NameOf(idx, i) == q {
      assert StrCmp(q, m) <= 0 && StrCmp(m, q) <= 0;
      StrCmpBothWays(m, q);
    }
  }

  /** A name has at most one maximal run in sorted records. */
  lemma RunIsUnique(idx: LoadedIndex, q: Name, s1: nat, e1: nat, s2: nat, e2: nat)
    requires IndexSorted(idx) && IsRun(idx, q, s1, e1) && IsRun(idx, q, s2, e2)
    ensures s1 == s2 && e1 == e2
  {
    RunHoldsAllMatches(idx, q, s1, e1, s2);
    RunHoldsAllMatches(idx, q, s1, e1, e2 - 1);
    RunHoldsAllMatches(idx, q, s2, e2, s1);
    RunHoldsAllMatches(idx, q, s2, e2, e1 - 1);
  }

  /** The index loaded from what save wrote for records sorted by name meets
      what the query needs, and its records are the saved ones in order; so the
      run get_range finds for q is exactly the saved records named q. */
  lemma QueryAfterSave(es: seq<Entry>, idx: LoadedIndex, q: Name, start: nat, stop: nat)
    requires |Segment(NamesOf(es))| < WORD_LIMIT && |es| < WORD_LIMIT
    requires SortedByName(es) && DecodeIndex(Serialize(es)) == Loaded(idx)
    requires IsRun(idx, q, start, stop)
    ensures IndexSorted(idx) && NamesShared(idx)
    ensures forall i :: 0 <= i < |es| ==> ((es[i].name == q) == (start <= i < stop))
  {
    LoadAfterSave(es);
    forall i | 0 <= i < |es|
      ensures (es[i].name == q) == (start <= i < stop)
    {
      assert LoadedEntries(idx)[i] == es[i];
      if es[i].name == q {
        RunHoldsAllMatches(idx, q, start, stop, i);
      }
    }
  }
}
