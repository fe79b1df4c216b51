/**
  The comparison loop of main.go:88-149 as it runs: two buffered readers that hand
  out one byte at a time, three counters updated in place, and two sinks that
  receive each mismatch line (the console when `-p` is given, the output file when
  `-o` names one). `Run` is proved to end in the state `ComparisonSpec.Expected`
  describes.
 */
module CompareBytes {
  import opened Options
  import opened MismatchFormat
  import opened ComparisonSpec

  /** `bufio.Reader` over one opened file: a cursor into its bytes. */
  class ByteReader {
    const source: ByteSource
    var pos: nat
    /** How many times `ReadByte` has been called. */
    ghost var attempts: nat

    constructor (source: ByteSource)
      ensures this.source == source && pos == 0 && attempts == 0
    {
      this.source := source;
      pos := 0;
      attempts := 0;
    }

    /** `ReadByte`: the byte at the cursor, `io.EOF` past the end, or the read error;
        only a byte moves the cursor. */
    method ReadByte() returns (r: ReadResult)
      modifies this
      ensures r == ReadAt(source, old(pos))
      ensures pos == if r.Byte? then old(pos) + 1 else old(pos)
      ensures attempts == old(attempts) + 1
    {
      attempts := attempts + 1;
      r := ReadAt(source, pos);
      if r.Byte? {
        pos := pos + 1;
      }
    }
  }

  class Comparator {
    const reader1: ByteReader
    const reader2: ByteReader
    /** Stat sizes of the two files (main.go:81-82). */
    const size1: nat
    const size2: nat
    /** The `-p` flag. */
    const printMismatches: bool
    /** Whether `-o` named an output file. */
    const writeOut: bool

    var count1: nat
    var count2: nat
    var mismatches: nat
    /** Mismatch lines given to `log.Printf`. */
    var console: seq<string>
    /** Mismatch lines written to the output file. */
    var outFile: seq<string>

    /** The only invariant the loop needs: the two readers are distinct objects, so reading
        one never moves the other's cursor. */
    ghost predicate Valid()
      reads this
    {
      reader1 != reader2
    }

    constructor (src1: ByteSource, src2: ByteSource, size1: nat, size2: nat,
                 printMismatches: bool, outFileName: string)
      ensures Valid() && fresh(reader1) && fresh(reader2)
      ensures reader1.source == src1 && reader2.source == src2
      ensures reader1.pos == 0 && reader2.pos == 0 && reader1.attempts == 0 && reader2.attempts == 0
      ensures this.size1 == size1 && this.size2 == size2
      ensures this.printMismatches == printMismatches && writeOut == (outFileName != "")
      ensures count1 == 0 && count2 == 0 && mismatches == 0
      ensures console == [] && outFile == []
    {
      reader1 := new ByteReader(src1);
      reader2 := new ByteReader(src2);
      this.size1, this.size2 := size1, size2;
      this.printMismatches := printMismatches;
      writeOut := outFileName != "";
      count1, count2, mismatches := 0, 0, 0;
      console, outFile := [], [];
    }

    /** The lines a sink that is switched on by `enabled` receives for `rs`. */
    static function SinkLines(enabled: bool, rs: seq<MismatchRecord>): seq<string>
    {
      if enabled then Lines(rs) else []
    }

    /** A sink that started as `start` has received exactly the lines for `rs`. */
    static predicate SinkHolds(sink: seq<string>, start: seq<string>, enabled: bool, rs: seq<MismatchRecord>)
    {
      sink == start + SinkLines(enabled, rs)
    }

    /** One comparison (main.go:133-148): a differing pair is counted and its line, at
        position `count1`, goes to every enabled sink, the same line to both. Equal bytes
        add no record, so nothing changes. */
    method Compare(byte1: bv8, byte2: bv8)
      modifies this`mismatches, this`console, this`outFile
      ensures mismatches == old(mismatches) + |NewRecords(count1, byte1, byte2)|
      ensures console == old(console) + SinkLines(printMismatches, NewRecords(count1, byte1, byte2))
      ensures outFile == old(outFile) + SinkLines(writeOut, NewRecords(count1, byte1, byte2))
    {
      SentLines(printMismatches, count1, byte1, byte2);
      SentLines(writeOut, count1, byte1, byte2);
      AppendNil(console);
      AppendNil(outFile);
      if byte1 != byte2 {
        mismatches := mismatches + 1;
        var line := Line(MismatchRecord(count1, byte1, byte2));
        if printMismatches {
          console := console + [line];
        }
        if writeOut {
          outFile := outFile + [line];
        }
      }
    }

    /** What holds between iterations: both readers are at the counters, every iteration
        so far read a byte from each file, and `mismatches` and the two sinks (which held
        `console0` and `outFile0` before the loop) account for the records found so far. */
    ghost predicate Inv(console0: seq<string>, outFile0: seq<string>)
      reads this, reader1, reader2
    {
      var src1, src2 := reader1.source, reader2.source;
      && Valid()
      && reader1.pos == count1 && reader2.pos == count2 && count1 == count2
      && count1 <= MinLength(src1, src2)
      && (forall j :: 0 <= j < count1 ==> !Halts(src1, src2, j))
      && Tallied(src1.bytes, src2.bytes, count1, mismatches, console, console0, printMismatches, outFile, outFile0, writeOut)
    }

    /** `m` counts the records of the first `k` comparisons, and each sink, from its starting
        contents, has received their lines exactly when it is enabled. */
    static ghost predicate Tallied(a: seq<bv8>, b: seq<bv8>, k: nat, m: nat,
                                   console: seq<string>, console0: seq<string>, printMismatches: bool,
                                   outFile: seq<string>, outFile0: seq<string>, writeOut: bool)
      requires k <= |a| && k <= |b|
    {
      && m == |MismatchRecords(a, b, k)|
      && SinkHolds(console, console0, printMismatches, MismatchRecords(a, b, k))
      && SinkHolds(outFile, outFile0, writeOut, MismatchRecords(a, b, k))
    }

    /** The loop itself, from freshly opened readers to the end of the run. */
    method Run() returns (report: Report)
      requires Valid()
      requires reader1.pos == 0 && reader2.pos == 0
      modifies this, reader1, reader2
      ensures Valid()
      ensures report == Expected(reader1.source, reader2.source, size1, size2)
      ensures count1 == report.count1 && count2 == report.count2 && mismatches == report.mismatches
      ensures reader1.pos == count1 && reader2.pos == count2
      ensures reader1.attempts == old(reader1.attempts) + count2 + 1
      ensures reader2.attempts == old(reader2.attempts) + count1
      ensures console == old(console) + SinkLines(printMismatches, FoundMismatches(reader1.source, reader2.source))
      ensures outFile == old(outFile) + SinkLines(writeOut, FoundMismatches(reader1.source, reader2.source))
    {
      ghost var console0, outFile0 := console, outFile;
      count1, count2, mismatches := 0, 0, 0;
      AppendNil(console0);
      AppendNil(outFile0);
      while true
        invariant Inv(console0, outFile0)
        invariant reader1.attempts == old(reader1.attempts) + count1
        invariant reader2.attempts == old(reader2.attempts) + count2
        decreases MinLength(reader1.source, reader2.source) - count1
      {
        var done := Step(console0, outFile0);
        if done.Some? {
          return done.value;
        }
      }
    }

    /** One iteration of the loop (main.go:93-148): read a byte from file 1 and, if there is
        one, go on with `SecondRead`. It gives the final report as soon as a read yields no
        byte, and nothing when the loop goes on. */
    method Step(ghost console0: seq<string>, ghost outFile0: seq<string>) returns (done: Option<Report>)
      requires Inv(console0, outFile0)
      modifies this, reader1, reader2
      ensures Valid()
      ensures reader1.attempts == old(reader1.attempts) + 1
      ensures reader2.attempts == old(reader2.attempts) + (count1 - old(count1))
      ensures done.None? ==> Inv(console0, outFile0) && count1 == old(count1) + 1
      ensures done.Some? ==>
        var src1, src2 := reader1.source, reader2.source;
        && done.value == Expected(src1, src2, size1, size2)
        && count1 == done.value.count1 && count2 == done.value.count2 && mismatches == done.value.mismatches
        && reader1.pos == count1 && reader2.pos == count2 && count2 == old(count2)
        && console == console0 + SinkLines(printMismatches, FoundMismatches(src1, src2))
        && outFile == outFile0 + SinkLines(writeOut, FoundMismatches(src1, src2))
    {
      var r1 := reader1.ReadByte();
      if !r1.Byte? {
        File1Stops(reader1.source, reader2.source, size1, size2, count1);
        var ending := if r1 == Eof then Exhausted(File1, Remaining(size2, count2)) else Failed(File1);
        return Some(Report(ending, count1, count2, mismatches));
      }
      count1 := count1 + 1;
      done := SecondRead(r1.value, console0, outFile0);
    }

    /** The rest of an iteration once file 1 gave `byte1` (main.go:111-148): read a byte from
        file 2; if there is none, give the final report, otherwise compare the two bytes. */
    method SecondRead(byte1: bv8, ghost console0: seq<string>, ghost outFile0: seq<string>)
      returns (done: Option<Report>)
      requires Valid()
      requires reader1.pos == count1 && reader2.pos == count2 && count1 == count2 + 1
      requires ReadAt(reader1.source, count2) == Byte(byte1)
      requires count2 <= MinLength(reader1.source, reader2.source)
      requires forall j :: 0 <= j < count2 ==> !Halts(reader1.source, reader2.source, j)
      requires Tallied(reader1.source.bytes, reader2.source.bytes, count2, mismatches,
                       console, console0, printMismatches, outFile, outFile0, writeOut)
      modifies this`count2, this`mismatches, this`console, this`outFile, reader2
      ensures reader2.attempts == old(reader2.attempts) + 1
      ensures done.None? ==> Inv(console0, outFile0)
      ensures done.Some? ==>
        var src1, src2 := reader1.source, reader2.source;
        && done.value == Expected(src1, src2, size1, size2)
        && count1 == done.value.count1 && count2 == done.value.count2 && mismatches == done.value.mismatches
        && reader2.pos == count2 && count2 == old(count2)
        && console == console0 + SinkLines(printMismatches, FoundMismatches(src1, src2))
        && outFile == outFile0 + SinkLines(writeOut, FoundMismatches(src1, src2))
    {
      ghost var src1, src2 := reader1.source, reader2.source;
      ghost var k, m, console1, outFile1 := count2, mismatches, console, outFile;
      var r2 := reader2.ReadByte();
      if !r2.Byte? {
        File2Stops(src1, src2, size1, size2, count2);
        var ending := if r2 == Eof then Exhausted(File2, Remaining(size1, count1)) else Failed(File2);
        return Some(Report(ending, count1, count2, mismatches));
      }
      count2 := count2 + 1;
      assert !Halts(src1, src2, k) && byte1 == src1.bytes[k] && r2.value == src2.bytes[k];

      Compare(byte1, r2.value);
      TallyStep(src1.bytes, src2.bytes, k, byte1, r2.value, m, mismatches, console1, console, console0,
                printMismatches, outFile1, outFile, outFile0, writeOut);
      return None;
    }
  }

  /** The report when the read of file 1 at iteration `k` is the first that fails to give a byte. */
  lemma File1Stops(src1: ByteSource, src2: ByteSource, size1: nat, size2: nat, k: nat)
    requires k <= MinLength(src1, src2)
    requires !ReadAt(src1, k).Byte?
    requires forall j :: 0 <= j < k ==> !Halts(src1, src2, j)
    ensures FoundMismatches(src1, src2) == MismatchRecords(src1.bytes, src2.bytes, k)
    ensures Expected(src1, src2, size1, size2) ==
      Report(if ReadAt(src1, k) == Eof then Exhausted(File1, Remaining(size2, k)) else Failed(File1),
             k, k, |MismatchRecords(src1.bytes, src2.bytes, k)|)
  {
    HaltIsFirst(src1, src2, k);
  }

  /** The report when file 1 gave byte `k` and the read of file 2 at `k` is the first to fail. */
  lemma File2Stops(src1: ByteSource, src2: ByteSource, size1: nat, size2: nat, k: nat)
    requires k <= MinLength(src1, src2)
    requires ReadAt(src1, k).Byte? && !ReadAt(src2, k).Byte?
    requires forall j :: 0 <= j < k ==> !Halts(src1, src2, j)
    ensures FoundMismatches(src1, src2) == MismatchRecords(src1.bytes, src2.bytes, k)
    ensures Expected(src1, src2, size1, size2) ==
      Report(if ReadAt(src2, k) == Eof then Exhausted(File2, Remaining(size1, k + 1)) else Failed(File2),
             k + 1, k, |MismatchRecords(src1.bytes, src2.bytes, k)|)
  {
    HaltIsFirst(src1, src2, k);
  }

  /** One comparison keeps `Tallied`: if it held after `k` comparisons and comparison `k + 1`
      counted and sent what `Compare` counts and sends, it holds after `k + 1`. */
  lemma TallyStep(a: seq<bv8>, b: seq<bv8>, k: nat, byte1: bv8, byte2: bv8, m: nat, m': nat,
                  console: seq<string>, console': seq<string>, console0: seq<string>, printMismatches: bool,
                  outFile: seq<string>, outFile': seq<string>, outFile0: seq<string>, writeOut: bool)
    requires k < |a| && k < |b| && byte1 == a[k] && byte2 == b[k]
    requires Comparator.Tallied(a, b, k, m, console, console0, printMismatches, outFile, outFile0, writeOut)
    requires m' == m + |NewRecords(k + 1, byte1, byte2)|
    requires console' == console + Comparator.SinkLines(printMismatches, NewRecords(k + 1, byte1, byte2))
    requires outFile' == outFile + Comparator.SinkLines(writeOut, NewRecords(k + 1, byte1, byte2))
    ensures Comparator.Tallied(a, b, k + 1, m', console', console0, printMismatches, outFile', outFile0, writeOut)
  {
    var before, added := MismatchRecords(a, b, k), NewRecords(k + 1, byte1, byte2);
    MismatchRecordsSnoc(a, b, k + 1);
    assert MismatchRecords(a, b, k + 1) == before + added;
    SinkStep(printMismatches, console0, before, added, console, console');
    SinkStep(writeOut, outFile0, before, added, outFile, outFile');
  }

  /** A sink that held the lines of `rs` and then received those of `added` holds the lines
      of `rs + added`. */
  lemma SinkStep(enabled: bool, start: seq<string>, rs: seq<MismatchRecord>, added: seq<MismatchRecord>,
                 sink: seq<string>, sink': seq<string>)
    requires Comparator.SinkHolds(sink, start, enabled, rs)
    requires sink' == sink + Comparator.SinkLines(enabled, added)
    ensures Comparator.SinkHolds(sink', start, enabled, rs + added)
  {
    if enabled {
      LinesAppend(rs, added);
      AppendAssoc(start, Lines(rs), Lines(added));
    }
  }

  /** What one comparison sends to a sink: its line, when the bytes differ and the sink is on. */
  lemma SentLines(enabled: bool, pos: nat, byte1: bv8, byte2: bv8)
    ensures Comparator.SinkLines(enabled, NewRecords(pos, byte1, byte2)) ==
      if enabled && byte1 != byte2 then [Line(MismatchRecord(pos, byte1, byte2))] else []
  {
    var r := MismatchRecord(pos, byte1, byte2);
    assert Lines([r])[0] == Line(r);
  }

  lemma AppendNil<T>(a: seq<T>)
    ensures a + [] == a
  {
  }

}
