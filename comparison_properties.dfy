/**
  What the comparison loop of main.go:88-149 guarantees, proved about its
  specification `ComparisonSpec.Expected` (which `CompareBytes.Comparator.Run`
  is proved to implement).
 */
module ComparisonProperties {
  import opened Options
  import opened MismatchFormat
  import opened ComparisonSpec

  /** Reading `src` raises no error other than end-of-file at any index up to `k`. */
  predicate NoErrorThrough(src: ByteSource, k: nat)
  {
    src.failAt.None? || src.failAt.value > k
  }

  /** The indices, among the first `k`, at which the two files differ. */
  function DiffIndices(a: seq<bv8>, b: seq<bv8>, k: nat): set<nat>
    requires k <= |a| && k <= |b|
  {
    set i: nat | i < k && a[i] != b[i]
  }

  /** Every iteration before `k` reads a byte from both files, so none of them stops the loop. */
  lemma NoHaltBefore(src1: ByteSource, src2: ByteSource, k: nat)
    requires k <= MinLength(src1, src2)
    requires k == 0 || (NoErrorThrough(src1, k - 1) && NoErrorThrough(src2, k - 1))
    ensures forall j :: 0 <= j < k ==> !Halts(src1, src2, j)
  {
  }

  /** File 1 ends first (|A| <= |B|): both counters equal |A|, and the read of file 2 in the
      last iteration never happens, so even a read error there goes unnoticed. */
  lemma File1ExhaustedFirst(src1: ByteSource, src2: ByteSource, size1: nat, size2: nat)
    requires |src1.bytes| <= |src2.bytes|
    requires NoErrorThrough(src1, |src1.bytes|)
    requires |src1.bytes| == 0 || NoErrorThrough(src2, |src1.bytes| - 1)
    ensures var n := |src1.bytes|;
      Expected(src1, src2, size1, size2) ==
        Report(Exhausted(File1, Remaining(size2, n)), n, n, |MismatchRecords(src1.bytes, src2.bytes, n)|)
  {
    var n := |src1.bytes|;
    NoHaltBefore(src1, src2, n);
    HaltIsFirst(src1, src2, n);
  }

  /** File 2 ends first (|A| > |B|): count2 is |B| but count1 is |B| + 1, because the byte of
      file 1 read in the last iteration is counted and never compared. */
  lemma File2ExhaustedFirst(src1: ByteSource, src2: ByteSource, size1: nat, size2: nat)
    requires |src1.bytes| > |src2.bytes|
    requires NoErrorThrough(src1, |src2.bytes|) && NoErrorThrough(src2, |src2.bytes|)
    ensures var n := |src2.bytes|;
      Expected(src1, src2, size1, size2) ==
        Report(Exhausted(File2, Remaining(size1, n + 1)), n + 1, n, |MismatchRecords(src1.bytes, src2.bytes, n)|)
  {
    var n := |src2.bytes|;
    NoHaltBefore(src1, src2, n);
    HaltIsFirst(src1, src2, n);
  }

  /** With the stat sizes equal to the lengths and no read errors, the remaining-bytes note
      says |B| - |A| when file 1 ends first and |A| - |B| - 1 when file 2 does, and is absent
      exactly when that number is zero: for equal lengths, and when file 1 is one byte longer. */
  lemma RemainingWithTrueSizes(src1: ByteSource, src2: ByteSource)
    requires src1.failAt == None && src2.failAt == None
    ensures var la, lb := |src1.bytes|, |src2.bytes|;
      Expected(src1, src2, la, lb).ending ==
        if la <= lb then Exhausted(File1, if la == lb then None else Some(lb - la))
        else Exhausted(File2, if la == lb + 1 then None else Some(la - lb - 1))
  {
    var la, lb := |src1.bytes|, |src2.bytes|;
    if la <= lb {
      File1ExhaustedFirst(src1, src2, la, lb);
    } else {
      File2ExhaustedFirst(src1, src2, la, lb);
    }
  }

  /** A read error ends the run without a summary; file 1 failing at byte `k` leaves both
      counters at `k`. */
  lemma File1ReadError(src1: ByteSource, src2: ByteSource, size1: nat, size2: nat, k: nat)
    requires src1.failAt == Some(k) && k <= MinLength(src1, src2)
    requires k == 0 || NoErrorThrough(src2, k - 1)
    ensures Expected(src1, src2, size1, size2) ==
      Report(Failed(File1), k, k, |MismatchRecords(src1.bytes, src2.bytes, k)|)
  {
    NoHaltBefore(src1, src2, k);
    HaltIsFirst(src1, src2, k);
  }

  /** File 2 failing at byte `k`, after file 1 gave its byte `k`: count1 is `k + 1`, count2 `k`. */
  lemma File2ReadError(src1: ByteSource, src2: ByteSource, size1: nat, size2: nat, k: nat)
    requires src2.failAt == Some(k) && k < |src1.bytes| && k <= |src2.bytes|
    requires NoErrorThrough(src1, k)
    ensures Expected(src1, src2, size1, size2) ==
      Report(Failed(File2), k + 1, k, |MismatchRecords(src1.bytes, src2.bytes, k)|)
  {
    NoHaltBefore(src1, src2, k);
    HaltIsFirst(src1, src2, k);
  }

  /** Without read errors, the run reports every index below min(|A|, |B|) at which the files
      differ, and nothing else, once each, in increasing position order. */
  lemma FoundMismatchesExact(src1: ByteSource, src2: ByteSource)
    requires src1.failAt == None && src2.failAt == None
    ensures var rs, a, b, n := FoundMismatches(src1, src2), src1.bytes, src2.bytes, MinLength(src1, src2);
      Faithful(rs, a, b, n) && Ascending(rs) && Covers(rs, a, b, n)
  {
    var a, b, n := src1.bytes, src2.bytes, MinLength(src1, src2);
    NoHaltBefore(src1, src2, n);
    HaltIsFirst(src1, src2, n);
    assert FoundMismatches(src1, src2) == MismatchRecords(a, b, n);
    MismatchRecordsFaithful(a, b, n);
    MismatchRecordsAscending(a, b, n);
    MismatchRecordsComplete(a, b, n);
  }

  /** The number of mismatch records is the number of differing indices. */
  lemma {:induction false} RecordCount(a: seq<bv8>, b: seq<bv8>, k: nat)
    requires k <= |a| && k <= |b|
    ensures |MismatchRecords(a, b, k)| == |DiffIndices(a, b, k)|
    decreases k
  {
    if k > 0 {
      RecordCount(a, b, k - 1);
      var prev := DiffIndices(a, b, k - 1);
      assert k - 1 !in prev;
      if a[k - 1] != b[k - 1] {
        assert DiffIndices(a, b, k) == prev + {k - 1};
      } else {
        assert DiffIndices(a, b, k) == prev;
      }
    }
  }

  /** Without read errors the final mismatch count is the number of indices below
      min(|A|, |B|) at which the files differ. */
  lemma MismatchCountIsDiffCount(src1: ByteSource, src2: ByteSource, size1: nat, size2: nat)
    requires src1.failAt == None && src2.failAt == None
    ensures Expected(src1, src2, size1, size2).mismatches
      == |DiffIndices(src1.bytes, src2.bytes, MinLength(src1, src2))|
  {
    var a, b := src1.bytes, src2.bytes;
    if |a| <= |b| {
      File1ExhaustedFirst(src1, src2, size1, size2);
    } else {
      File2ExhaustedFirst(src1, src2, size1, size2);
    }
    RecordCount(a, b, MinLength(src1, src2));
  }

  /** Identical files: no mismatch, both counters at the common length and, with true stat
      sizes, no remaining-bytes note (for two empty files too). */
  lemma IdenticalFiles(src1: ByteSource, src2: ByteSource)
    requires src1.bytes == src2.bytes && src1.failAt == None && src2.failAt == None
    ensures var n := |src1.bytes|;
      Expected(src1, src2, n, n) == Report(Exhausted(File1, None), n, n, 0)
      && FoundMismatches(src1, src2) == []
  {
    var n := |src1.bytes|;
    File1ExhaustedFirst(src1, src2, n, n);
    RecordCount(src1.bytes, src2.bytes, n);
    assert DiffIndices(src1.bytes, src2.bytes, n) == {};
  }

  /** Equal-length files that differ at exactly one 1-based position `k` give exactly one
      mismatch record, at `k`, holding the two bytes found there. */
  lemma SingleMismatch(a: seq<bv8>, b: seq<bv8>, k: nat)
    requires |a| == |b| && 1 <= k <= |a|
    requires a[k - 1] != b[k - 1]
    requires forall i :: 0 <= i < |a| && i != k - 1 ==> a[i] == b[i]
    ensures MismatchRecords(a, b, |a|) == [MismatchRecord(k, a[k - 1], b[k - 1])]
  {
    var rs := MismatchRecords(a, b, |a|);
    RecordFor(a, b, |a|, k - 1);
    MismatchRecordsFaithful(a, b, |a|);
    MismatchRecordsAscending(a, b, |a|);
    OnlyRecordAt(rs, a, b, k);
  }

  /** The argument of `SingleMismatch`, for any record list with the properties
      `MismatchRecords` guarantees. */
  lemma OnlyRecordAt(rs: seq<MismatchRecord>, a: seq<bv8>, b: seq<bv8>, k: nat)
    requires |a| == |b| && 1 <= k <= |a|
    requires forall i :: 0 <= i < |a| && i != k - 1 ==> a[i] == b[i]
    requires Faithful(rs, a, b, |a|) && Ascending(rs)
    requires exists j :: 0 <= j < |rs| && rs[j].pos == k
    ensures rs == [MismatchRecord(k, a[k - 1], b[k - 1])]
  {
    forall j | 0 <= j < |rs|
      ensures rs[j].pos == k
    {
      var p := rs[j].pos;
      assert a[p - 1] != b[p - 1];
    }
    Spread(rs);
    assert |rs| == 1;
    assert rs[0] == MismatchRecord(k, a[k - 1], b[k - 1]);
  }

  /** Strictly increasing positions grow by at least one per record. */
  lemma {:induction false} Spread(rs: seq<MismatchRecord>)
    requires Ascending(rs)
    ensures |rs| > 0 ==> rs[|rs| - 1].pos >= rs[0].pos + |rs| - 1
  {
    if |rs| > 1 {
      Spread(rs[..|rs| - 1]);
    }
  }

  /** Files that differ everywhere: one record per position, in increasing order. */
  lemma {:induction false} AllBytesDiffer(a: seq<bv8>, b: seq<bv8>, k: nat)
    requires k <= |a| && k <= |b|
    requires forall i :: 0 <= i < k ==> a[i] != b[i]
    ensures MismatchRecords(a, b, k) == seq(k, j requires 0 <= j < k => MismatchRecord(j + 1, a[j], b[j]))
    decreases k
  {
    if k > 0 {
      AllBytesDiffer(a, b, k - 1);
    }
  }

  /** A run over error-free files of equal length that differ only at 1-based position `k`
      reports one mismatch, and its sinks get the one record at `k`. */
  lemma SingleMismatchRun(src1: ByteSource, src2: ByteSource, size1: nat, size2: nat, k: nat)
    requires src1.failAt == None && src2.failAt == None
    requires |src1.bytes| == |src2.bytes| && 1 <= k <= |src1.bytes|
    requires src1.bytes[k - 1] != src2.bytes[k - 1]
    requires forall i :: 0 <= i < |src1.bytes| && i != k - 1 ==> src1.bytes[i] == src2.bytes[i]
    ensures FoundMismatches(src1, src2) == [MismatchRecord(k, src1.bytes[k - 1], src2.bytes[k - 1])]
    ensures Expected(src1, src2, size1, size2).mismatches == 1
  {
    File1ExhaustedFirst(src1, src2, size1, size2);
    NoHaltBefore(src1, src2, |src1.bytes|);
    HaltIsFirst(src1, src2, |src1.bytes|);
    SingleMismatch(src1.bytes, src2.bytes, k);
  }

  /** A run over error-free files of equal length that differ at every index reports as many
      mismatches as the length, one record per position in increasing order. */
  lemma AllBytesDifferRun(src1: ByteSource, src2: ByteSource, size1: nat, size2: nat)
    requires src1.failAt == None && src2.failAt == None
    requires |src1.bytes| == |src2.bytes|
    requires forall i :: 0 <= i < |src1.bytes| ==> src1.bytes[i] != src2.bytes[i]
    ensures var a, b, n := src1.bytes, src2.bytes, |src1.bytes|;
      FoundMismatches(src1, src2) == seq(n, j requires 0 <= j < n => MismatchRecord(j + 1, a[j], b[j]))
    ensures Expected(src1, src2, size1, size2).mismatches == |src1.bytes|
  {
    var n := |src1.bytes|;
    File1ExhaustedFirst(src1, src2, size1, size2);
    NoHaltBefore(src1, src2, n);
    HaltIsFirst(src1, src2, n);
    AllBytesDiffer(src1.bytes, src2.bytes, n);
  }
}
