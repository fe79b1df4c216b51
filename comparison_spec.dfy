/**
  What one run of the comparison loop of main.go:88-149 produces, stated on values.
  A file is a `ByteSource`: its bytes and, optionally, the index at which reading it
  fails with an error other than end-of-file. Iteration `i` of the loop reads byte
  `i` of file 1 and, only if that succeeded, byte `i` of file 2; the loop ends at the
  first iteration where either read does not yield a byte (`FirstHalt`).
 */
module ComparisonSpec {
  import opened Options
  import opened MismatchFormat

  datatype ByteSource = ByteSource(bytes: seq<bv8>, failAt: Option<nat>)

  /** What `ReadByte` returns: a byte, `io.EOF`, or any other error. */
  datatype ReadResult = Byte(value: bv8) | Eof | ReadError

  datatype Side = File1 | File2

  /** How the loop ended: one file was read to its end (with the note on the other
      file's unread bytes, if any), or a read failed and no summary is printed. */
  datatype Ending = Exhausted(side: Side, remaining: Option<int>) | Failed(side: Side)

  /** The end-of-run state: how it ended and the three counters. */
  datatype Report = Report(ending: Ending, count1: nat, count2: nat, mismatches: nat)

  function Min(x: nat, y: nat): nat { if x < y then x else y }

  function ReadAt(src: ByteSource, i: nat): (r: ReadResult)
    ensures r.Byte? <==> i < |src.bytes| && src.failAt != Some(i)
    ensures r.Byte? ==> r.value == src.bytes[i]
    ensures r == Eof <==> |src.bytes| <= i && src.failAt != Some(i)
  {
    if src.failAt == Some(i) then ReadError
    else if i < |src.bytes| then Byte(src.bytes[i])
    else Eof
  }

  /** Iteration `i` is the last one: one of its two reads does not give a byte. */
  predicate Halts(src1: ByteSource, src2: ByteSource, i: nat)
  {
    !ReadAt(src1, i).Byte? || !ReadAt(src2, i).Byte?
  }

  function MinLength(src1: ByteSource, src2: ByteSource): nat
  {
    Min(|src1.bytes|, |src2.bytes|)
  }

  /** The first iteration, from `i` on, at which the loop stops. */
  function FirstHalt(src1: ByteSource, src2: ByteSource, i: nat): (t: nat)
    requires i <= MinLength(src1, src2)
    ensures i <= t <= MinLength(src1, src2)
    ensures Halts(src1, src2, t)
    ensures forall j :: i <= j < t ==> !Halts(src1, src2, j)
    decreases MinLength(src1, src2) - i
  {
    if Halts(src1, src2, i) then i else FirstHalt(src1, src2, i + 1)
  }

  /** The mismatches found by the first `k` comparisons, in the order they are found. */
  function MismatchRecords(a: seq<bv8>, b: seq<bv8>, k: nat): (rs: seq<MismatchRecord>)
    requires k <= |a| && k <= |b|
    ensures |rs| <= k
  {
    if k == 0 then []
    else
      var rs := MismatchRecords(a, b, k - 1);
      if a[k - 1] != b[k - 1] then rs + [MismatchRecord(k, a[k - 1], b[k - 1])] else rs
  }

  /** Each record names a position among the first `k` at which the files differ, with the
      two bytes found there. */
  predicate Faithful(rs: seq<MismatchRecord>, a: seq<bv8>, b: seq<bv8>, k: nat)
  {
    && k <= |a| && k <= |b|
    && forall j :: 0 <= j < |rs| ==>
         1 <= rs[j].pos <= k && rs[j].b1 == a[rs[j].pos - 1] && rs[j].b2 == b[rs[j].pos - 1] && rs[j].b1 != rs[j].b2
  }

  /** Positions strictly increase along the records. */
  predicate Ascending(rs: seq<MismatchRecord>)
  {
    forall j, j' :: 0 <= j < j' < |rs| ==> rs[j].pos < rs[j'].pos
  }

  /** Every index among the first `k` at which the files differ has a record. */
  predicate Covers(rs: seq<MismatchRecord>, a: seq<bv8>, b: seq<bv8>, k: nat)
  {
    forall i :: 0 <= i < k && i < |a| && i < |b| && a[i] != b[i] ==>
      exists j :: 0 <= j < |rs| && rs[j].pos == i + 1
  }

  /** The records one comparison at 1-based position `pos` adds: one exactly when the bytes differ. */
  function NewRecords(pos: nat, byte1: bv8, byte2: bv8): seq<MismatchRecord>
  {
    if byte1 != byte2 then [MismatchRecord(pos, byte1, byte2)] else []
  }

  /** The records of `k` comparisons are those of `k - 1` and what comparison `k` adds. */
  lemma MismatchRecordsSnoc(a: seq<bv8>, b: seq<bv8>, k: nat)
    requires 0 < k <= |a| && k <= |b|
    ensures MismatchRecords(a, b, k) == MismatchRecords(a, b, k - 1) + NewRecords(k, a[k - 1], b[k - 1])
  {
    if a[k - 1] == b[k - 1] {
      assert MismatchRecords(a, b, k - 1) + [] == MismatchRecords(a, b, k - 1);
    }
  }

  /** The records of `k` comparisons extend those of `k - 1`, with at most one more at the end. */
  lemma MismatchRecordsStep(a: seq<bv8>, b: seq<bv8>, k: nat)
    requires 0 < k <= |a| && k <= |b|
    ensures var prev, rs := MismatchRecords(a, b, k - 1), MismatchRecords(a, b, k);
      && |rs| == |prev| + (if a[k - 1] != b[k - 1] then 1 else 0)
      && (forall j :: 0 <= j < |prev| ==> rs[j] == prev[j])
      && (a[k - 1] != b[k - 1] ==> rs[|prev|] == MismatchRecord(k, a[k - 1], b[k - 1]))
  {
  }

  lemma {:induction false} MismatchRecordsFaithful(a: seq<bv8>, b: seq<bv8>, k: nat)
    requires k <= |a| && k <= |b|
    ensures Faithful(MismatchRecords(a, b, k), a, b, k)
    decreases k
  {
    if k > 0 {
      MismatchRecordsFaithful(a, b, k - 1);
      MismatchRecordsStep(a, b, k);
    }
  }

  lemma {:induction false} MismatchRecordsAscending(a: seq<bv8>, b: seq<bv8>, k: nat)
    requires k <= |a| && k <= |b|
    ensures Ascending(MismatchRecords(a, b, k))
    decreases k
  {
    if k > 0 {
      MismatchRecordsAscending(a, b, k - 1);
      MismatchRecordsFaithful(a, b, k - 1);
      MismatchRecordsStep(a, b, k);
    }
  }

  /** No mismatch is skipped. */
  lemma MismatchRecordsComplete(a: seq<bv8>, b: seq<bv8>, k: nat)
    requires k <= |a| && k <= |b|
    ensures Covers(MismatchRecords(a, b, k), a, b, k)
  {
    forall i | 0 <= i < k && i < |a| && i < |b| && a[i] != b[i]
      ensures exists j :: 0 <= j < |MismatchRecords(a, b, k)| && MismatchRecords(a, b, k)[j].pos == i + 1
    {
      RecordFor(a, b, k, i);
    }
  }

  lemma {:induction false} RecordFor(a: seq<bv8>, b: seq<bv8>, k: nat, i: nat)
    requires k <= |a| && k <= |b|
    requires i < k && a[i] != b[i]
    ensures exists j :: 0 <= j < |MismatchRecords(a, b, k)| && MismatchRecords(a, b, k)[j].pos == i + 1
    decreases k
  {
    var rs := MismatchRecords(a, b, k - 1);
    MismatchRecordsStep(a, b, k);
    if i == k - 1 {
      assert MismatchRecords(a, b, k)[|rs|].pos == i + 1;
    } else {
      RecordFor(a, b, k - 1, i);
      var j :| 0 <= j < |rs| && rs[j].pos == i + 1;
      assert MismatchRecords(a, b, k)[j] == rs[j];
    }
  }

  /** `f` applied to each element of `xs`, in order. */
  function Map<A, B>(f: A -> B, xs: seq<A>): (ys: seq<B>)
    ensures |ys| == |xs|
  {
    seq(|xs|, i requires 0 <= i < |xs| => f(xs[i]))
  }

  lemma MapAppend<A, B>(f: A -> B, xs: seq<A>, ys: seq<A>)
    ensures Map(f, xs + ys) == Map(f, xs) + Map(f, ys)
  {
    forall i | 0 <= i < |xs| + |ys|
      ensures Map(f, xs + ys)[i] == (Map(f, xs) + Map(f, ys))[i]
    {
      if i < |xs| {
        assert (xs + ys)[i] == xs[i];
      } else {
        assert (xs + ys)[i] == ys[i - |xs|];
      }
    }
  }

  /** The lines a sink receives for a sequence of mismatches, one per record, in order. */
  function Lines(rs: seq<MismatchRecord>): (ls: seq<string>)
    ensures |ls| == |rs|
  {
    Map(Line, rs)
  }

  /** The lines of two runs of records are the lines of each, one after the other. */
  lemma LinesAppend(rs: seq<MismatchRecord>, added: seq<MismatchRecord>)
    ensures Lines(rs + added) == Lines(rs) + Lines(added)
  {
    MapAppend(Line, rs, added);
  }

  lemma AppendAssoc<T>(a: seq<T>, b: seq<T>, c: seq<T>)
    ensures (a + b) + c == a + (b + c)
  {
  }

  /** The note printed after the summary (main.go:101-102, 121-122): the unread byte count,
      by the stat size, of the file that was not exhausted, unless its count equals that size. */
  function Remaining(size: nat, count: nat): (r: Option<int>)
    ensures r == None <==> count == size
    ensures r.Some? ==> r.value + count == size
  {
    if count != size then Some(size - count) else None
  }

  /** The mismatches the run finds: those before the iteration that stops it. */
  function FoundMismatches(src1: ByteSource, src2: ByteSource): seq<MismatchRecord>
  {
    MismatchRecords(src1.bytes, src2.bytes, FirstHalt(src1, src2, 0))
  }

  /** The end-of-run state for files `src1`, `src2` whose stat sizes are `size1`, `size2`. */
  function Expected(src1: ByteSource, src2: ByteSource, size1: nat, size2: nat): (r: Report)
    ensures r.count2 <= r.count1 <= r.count2 + 1
    ensures r.count2 <= MinLength(src1, src2)
    ensures r.mismatches <= r.count2
    ensures r.count1 == r.count2 + 1 <==> ReadAt(src1, r.count2).Byte?
  {
    var t := FirstHalt(src1, src2, 0);
    var m := |MismatchRecords(src1.bytes, src2.bytes, t)|;
    match ReadAt(src1, t)
    case ReadError => Report(Failed(File1), t, t, m)
    case Eof => Report(Exhausted(File1, Remaining(size2, t)), t, t, m)
    case Byte(_) =>
      if ReadAt(src2, t) == ReadError then Report(Failed(File2), t + 1, t, m)
      else Report(Exhausted(File2, Remaining(size1, t + 1)), t + 1, t, m)
  }

  /** A halting iteration with no halting one before it is the first. */
  lemma HaltIsFirst(src1: ByteSource, src2: ByteSource, k: nat)
    requires k <= MinLength(src1, src2)
    requires Halts(src1, src2, k)
    requires forall j :: 0 <= j < k ==> !Halts(src1, src2, j)
    ensures FirstHalt(src1, src2, 0) == k
  {
  }
}
