# compareBytes in Dafny

compareBytes compares two files byte by byte. It reads one byte from file 1 (`-f1`), then one
byte from file 2 (`-f2`), and keeps three counters: `count1`, `count2` and `mismatches`. For
every differing pair it formats a line `Pos: %2d, f1: %02x, f2: %02x \n`. That line goes to the
console log when `-p` is given and to the output file when `-o` names one. The run stops at the
first end-of-file on either side and logs a summary. A read error other than end-of-file ends
the run without a summary.

This project models that comparison loop (`main` in main.go, lines 88-149) and proves what it
does.

- `MismatchFormat` (format.dfy): the mismatch line, with its `%d`, `%2d` and `%02x` fields. Each
  printer has a parser, and the lemmas prove that parsing a printed line gives back the
  position and both bytes.
- `ComparisonSpec` (comparison_spec.dfy): the run stated on values.
  - A file is a `ByteSource`: its bytes plus an optional index at which `ReadByte` fails with
    an error other than end-of-file.
  - `FirstHalt` is the first iteration at which either read does not yield a byte.
  - `MismatchRecords` lists the mismatches found before a given iteration.
  - `Expected` gives the end-of-run `Report`: how the run ended, the bytes still unread
    according to the stat size, `count1`, `count2` and `mismatches`.
- `CompareBytes` (compare_bytes.dfy): the loop as it runs. `ByteReader` objects stand for the
  `bufio.Reader`s. `Comparator` holds the counters and the two sinks (`console`, `outFile`) as
  fields that its methods update. `Comparator.Run` is proved to end in the state `Expected`
  describes, and to send each sink exactly the lines of the mismatches found when that sink is
  enabled.
- `ComparisonProperties` (comparison_properties.dfy): what the loop guarantees, proved about
  `Expected`. It covers:
  - which file ends first and the counters at that point;
  - the asymmetric remaining-bytes note;
  - the read-error paths;
  - the mismatch count;
  - the ordering and completeness of mismatch records;
  - the single-mismatch and all-bytes-differ cases.

Each file's stat size (`size1`, `size2`) is a separate parameter, as in the program. It need not
equal the number of bytes read, so the "remaining" value can be any integer.

The position is right-justified to width two (`%2d`) and a space comes before the newline
(main.go:137); the model follows the code.

Because `Expected` is a function of the two sources and the two sizes, and `Run` is proved to
produce exactly it, two runs on the same inputs give the same report and the same lines.

## Model

In the table, n1 and n2 are the lengths of file 1 and file 2.

| member | source | states |
|---|---|---|
| `MismatchFormat.Decimal` | main.go:137 | `%d` of a count: a non-empty string of decimal digits, a single digit exactly for values below 10, and no leading zero except for 0 itself |
| `MismatchFormat.DecimalRoundTrip` | main.go:137 | reading the decimal digits back gives the number printed |
| `MismatchFormat.Pad2` | main.go:137 | `%2d`: the decimal digits right-justified with spaces in a field of width max(2, digit count) |
| `MismatchFormat.Pad2RoundTrip` | main.go:137 | skipping the padding spaces and reading the digits gives the position back |
| `MismatchFormat.Hex2` | main.go:137 | `%02x` of a byte: exactly two lowercase hexadecimal digits whose value, high digit first, is the byte |
| `MismatchFormat.Line` | main.go:137 | the line starts with "Pos: ", ends with " \n", and is 23 characters plus the position field long |
| `MismatchFormat.Tail` | main.go:137 | the part after the position is always 18 characters: ", f1: ", the `%02x` of byte 1, ", f2: ", the `%02x` of byte 2 and " \n", each at a fixed offset |
| `MismatchFormat.LineHasNoPercent` | main.go:137-141 | no mismatch line contains '%', so passing it to `log.Printf` as a format string prints it unchanged |
| `MismatchFormat.LineRoundTrip` | main.go:137 | parsing a mismatch line gives back the position and both bytes: the format loses nothing |
| `MismatchFormat.ParseHalves` | main.go:137 | a line is read back from its two halves: a position field that parses to the position and a tail whose two hex fields parse to the bytes |
| `MismatchFormat.LineInjective` | main.go:137 | two different mismatch records never produce the same line |
| `ComparisonSpec.ReadAt` | main.go:93-96 | a read gives the byte at the cursor when the cursor is inside the file and no error is set there, end-of-file past the end, and otherwise the read error |
| `ComparisonSpec.FirstHalt` | main.go:92-131 | the loop's last iteration: the least index at which reading file 1, or then file 2, gives no byte; every earlier iteration read a byte from both; it is at most min(n1, n2) |
| `ComparisonSpec.Remaining` | main.go:101-102 | the note is absent exactly when the count equals the stat size, and otherwise carries size minus count |
| `ComparisonSpec.Expected` | main.go:88-149 | at the end, count2 ≤ count1 ≤ count2 + 1 and count2 ≤ min(n1, n2); count1 exceeds count2 exactly when file 1 gave a byte in the last iteration; mismatches ≤ count2 |
| `ComparisonSpec.MismatchRecordsFaithful` | main.go:134-137 | each record is at a 1-based position among the comparisons made, where the files differ, and holds the byte of each file at that position |
| `ComparisonSpec.MismatchRecordsAscending` | main.go:131-137 | record positions strictly increase: at most one record per position, in the order the loop meets them |
| `ComparisonSpec.MismatchRecordsComplete` | main.go:134-135 | every differing index among the comparisons made has a record |
| `ComparisonSpec.MismatchRecordsSnoc` | main.go:131-137 | the records after k comparisons are those after k - 1 followed by one record at position k when the k-th bytes differ, and nothing when they are equal |
| `ComparisonSpec.LinesAppend` | main.go:137-147 | the lines sent for two runs of mismatches are the lines of the first run followed by those of the second |
| `CompareBytes.ByteReader.ReadByte` | main.go:93-94 | returns what `ReadAt` gives at the cursor and moves the cursor by one only when it returns a byte |
| `CompareBytes.Comparator.constructor` | main.go:42-90 | the readers start at the beginning of their files, the output sink is on exactly when an output file name was given, and the counters and sinks start empty |
| `CompareBytes.Comparator.Compare` | main.go:133-148 | equal bytes change nothing; a differing pair adds one to `mismatches` and appends the same line, for the record at position `count1`, to the console when `-p` is set and to the output file when `-o` is set |
| `CompareBytes.Comparator.Step` | main.go:93-148 | one iteration: file 1 is asked for one byte and file 2 for one only when file 1 gave one; when a read gives no byte the result is the `Expected` report, the counters match it and each sink holds what it held before the loop plus, when it is enabled, the lines of `FoundMismatches`; otherwise count1 grew by one and the loop invariant still holds |
| `CompareBytes.Comparator.SecondRead` | main.go:111-148 | after file 1 gave byte k + 1: file 2 is asked for one byte; if it gives none, the report is `Expected` with count1 = count2 + 1; if it gives one, count2 catches up with count1 and the mismatch count and both sinks account for comparison k + 1 |
| `CompareBytes.TallyStep` | main.go:131-148 | if the counter and sinks match the records of k comparisons, adding what comparison k + 1 adds makes them match the records of k + 1 comparisons |
| `CompareBytes.Comparator.Run` | main.go:88-149 | the final counters and report are `Expected`; each sink receives the lines of `FoundMismatches` exactly when it is enabled and nothing otherwise; file 1 was asked for a byte count2 + 1 times and file 2 count1 times, so file 2 is not read in the iteration where file 1 ends |
| `CompareBytes.File1Stops` | main.go:93-109 | when file 1's read at iteration k is the first to give no byte, the report ends with file 1 (exhausted or failed) and both counters are k |
| `CompareBytes.File2Stops` | main.go:111-129 | when file 2's read at iteration k is the first to give no byte, the report ends with file 2 (exhausted or failed), count1 is k + 1 and count2 is k |
| `ComparisonProperties.File1ExhaustedFirst` | main.go:93-106 | with n1 ≤ n2 and no read errors reached, file 1 is reported exhausted, count1 = count2 = n1, and the note is `size2 - n1` unless they are equal; a read error in file 2 at index n1 is never met |
| `ComparisonProperties.File2ExhaustedFirst` | main.go:111-126 | with n1 > n2, file 2 is reported exhausted, count2 = n2 and count1 = n2 + 1 (the last byte of file 1 read is counted, never compared), and the note is `size1 - (n2 + 1)` unless they are equal |
| `ComparisonProperties.RemainingWithTrueSizes` | main.go:101-122 | with true stat sizes the note says n2 - n1 when file 1 ends first and n1 - n2 - 1 when file 2 does; it is absent exactly for equal lengths and when file 1 is one byte longer |
| `ComparisonProperties.File1ReadError` | main.go:107-109 | a read error in file 1 at index k ends the run without a summary, with both counters at k |
| `ComparisonProperties.File2ReadError` | main.go:127-129 | a read error in file 2 at index k, after file 1 gave byte k, ends the run without a summary, with count1 = k + 1 and count2 = k |
| `ComparisonProperties.RecordCount` | main.go:134-135 | the number of records after k comparisons is the number of indices below k at which the files differ |
| `ComparisonProperties.MismatchCountIsDiffCount` | main.go:134-135 | without read errors, the final `mismatches` is the number of indices below min(n1, n2) at which the files differ |
| `ComparisonProperties.FoundMismatchesExact` | main.go:131-137 | without read errors, the mismatches reported are exactly the differing indices below min(n1, n2), each once, in increasing position order, with both bytes |
| `ComparisonProperties.IdenticalFiles` | main.go:92-106 | identical files, empty ones included, give no mismatch, both counters equal to the length, and no remaining-bytes note |
| `ComparisonProperties.SingleMismatch` | main.go:134-137 | equal-length files that differ at exactly one 1-based position k give exactly one record, at k, with the two bytes there |
| `ComparisonProperties.SingleMismatchRun` | main.go:92-137 | a run over error-free equal-length files that differ only at position k reports exactly one mismatch, and the found records are the one record at k with both bytes |
| `ComparisonProperties.AllBytesDifferRun` | main.go:92-137 | a run over error-free equal-length files that differ everywhere reports as many mismatches as the length, with one record per position 1..n1 in order |
| `ComparisonProperties.AllBytesDiffer` | main.go:134-137 | files that differ at every one of the first k indices give one record per position 1..k, in order |

## Left out

- Flag parsing and the usage message when `-f1` or `-f2` is missing (main.go:28-39): command-line handling outside the loop.
- Creating the output file and opening and stat-ing the inputs, with their error exits (main.go:41-82): operating-system calls. The model takes their results as the two `ByteSource` values and the sizes `size1` and `size2`.
- `bufio` buffering and the deferred `Flush` of the output writer (main.go:51-52, 85-86): the output file is modelled as the sequence of lines written to it, the readers as cursors.
- The wording and timestamps of the log messages (main.go:25, 97-104, 108, 117-124, 128). The summary is the structured `Report`. The text of a read error is not modelled, only which file failed. The summary goes only to the console, never to the output file, and `Report` is not added to either sink.
- Read errors: each file has at most one index at which `ReadByte` returns an error other than end-of-file. Any later behaviour of a reader that has failed cannot be observed, because the loop stops there.
- Integer width: the model assumes a 64-bit Go `int`, and `count1`, `count2`, `mismatches` and the sizes are unbounded. It leaves out the 32-bit targets (386, arm), where `int` is 32 bits: there the counters wrap after 2^31 - 1 bytes, and `int(file1Size)` and `int(file2Size)` (main.go:101, 121) truncate the 64-bit stat size, so the remaining-bytes note goes wrong for files of 2 GiB or more.
- Unclosed input files and process exit behaviour.
