/**
  The text of one mismatch line, as main.go:137 builds it with
  `fmt.Sprintf("Pos: %2d, f1: %02x, f2: %02x \n", count1, byte1, byte2)`:
  the position in decimal right-justified to width two, then both bytes as
  two lowercase hexadecimal digits. Each printer has a parser beside it, and
  the lemmas prove that parsing a printed line gives back the record.
 */
module MismatchFormat {
  import opened Options

  /** One differing pair: the 1-based position and the byte read from each file. */
  datatype MismatchRecord = MismatchRecord(pos: nat, b1: bv8, b2: bv8)

  function Max(x: int, y: int): int { if x < y then y else x }

  // ----- decimal (`%d`) -----

  predicate IsDigit(c: char) { '0' <= c <= '9' }

  predicate AllDigits(s: string) { forall i :: 0 <= i < |s| ==> IsDigit(s[i]) }

  function DigitValue(c: char): (d: nat)
    requires IsDigit(c)
    ensures d < 10
  {
    c as int - '0' as int
  }

  function Digit(d: nat): (c: char)
    requires d < 10
    ensures IsDigit(c) && DigitValue(c) == d
  {
    (d + '0' as int) as char
  }

  /** The value of a string of decimal digits, most significant digit first. */
  function DigitsValue(s: string): nat
    requires AllDigits(s)
  {
    if s == [] then 0 else DigitsValue(s[..|s| - 1]) * 10 + DigitValue(s[|s| - 1])
  }

  /** A non-empty string of decimal digits, or nothing. */
  function ParseDecimal(s: string): Option<nat>
  {
    if |s| > 0 && AllDigits(s) then Some(DigitsValue(s)) else None
  }

  /** `n` in decimal, as `%d` prints a non-negative integer: digits only, no leading zero. */
  function Decimal(n: nat): (s: string)
    ensures |s| >= 1 && AllDigits(s)
    ensures |s| == 1 <==> n < 10
    ensures s[0] == '0' ==> n == 0
    decreases n
  {
    if n < 10 then [Digit(n)] else Decimal(n / 10) + [Digit(n % 10)]
  }

  lemma {:induction false} DecimalRoundTrip(n: nat)
    ensures ParseDecimal(Decimal(n)) == Some(n)
    decreases n
  {
    var s := Decimal(n);
    if n >= 10 {
      DecimalRoundTrip(n / 10);
      assert s[..|s| - 1] == Decimal(n / 10);
      assert DigitValue(s[|s| - 1]) == n % 10;
      assert DigitsValue(s) == (n / 10) * 10 + n % 10;
    }
  }

  /** `%2d`: the decimal digits of `n` right-justified with spaces in a field at least two wide. */
  function Pad2(n: nat): (s: string)
    ensures |s| == Max(2, |Decimal(n)|)
    ensures s[|s| - |Decimal(n)|..] == Decimal(n)
    ensures forall i :: 0 <= i < |s| - |Decimal(n)| ==> s[i] == ' '
  {
    if n < 10 then " " + Decimal(n) else Decimal(n)
  }

  /** Reads back a right-justified decimal field: leading spaces, then the digits. */
  function ParsePadded(s: string): Option<nat>
  {
    if |s| > 0 && s[0] == ' ' then ParsePadded(s[1..]) else ParseDecimal(s)
  }

  lemma Pad2RoundTrip(n: nat)
    ensures ParsePadded(Pad2(n)) == Some(n)
  {
    DecimalRoundTrip(n);
    if n < 10 {
      assert Pad2(n)[1..] == Decimal(n);
    }
  }

  // ----- hexadecimal (`%02x`) -----

  predicate IsLowerHex(c: char) { '0' <= c <= '9' || 'a' <= c <= 'f' }

  function HexValue(c: char): (d: nat)
    requires IsLowerHex(c)
    ensures d < 16
  {
    if c <= '9' then c as int - '0' as int else c as int - 'a' as int + 10
  }

  function HexDigit(d: nat): (c: char)
    requires d < 16
    ensures IsLowerHex(c) && HexValue(c) == d
  {
    if d < 10 then (d + '0' as int) as char else (d - 10 + 'a' as int) as char
  }

  /** `%02x` of a byte: exactly two lowercase hexadecimal digits, high nibble first. */
  function Hex2(b: bv8): (s: string)
    ensures |s| == 2 && IsLowerHex(s[0]) && IsLowerHex(s[1])
    ensures HexValue(s[0]) * 16 + HexValue(s[1]) == b as int
  {
    [HexDigit(b as int / 16), HexDigit(b as int % 16)]
  }

  function ParseHex2(s: string): Option<bv8>
  {
    if |s| == 2 && IsLowerHex(s[0]) && IsLowerHex(s[1])
    then Some((HexValue(s[0]) * 16 + HexValue(s[1])) as bv8)
    else None
  }

  // ----- the mismatch line -----

  /** Length of the fixed text that follows the position field: ", f1: xx, f2: xx \n". */
  const TailLength := 18

  /** The line main.go:137 formats for a mismatch. It ends in the newline that `log`
      would otherwise add. */
  function Line(r: MismatchRecord): (s: string)
    ensures |s| == 5 + |Pad2(r.pos)| + TailLength
    ensures s[..5] == "Pos: " && s[|s| - 2..] == " \n"
  {
    var head := "Pos: " + Pad2(r.pos);
    var tail := Tail(r.b1, r.b2);
    SplitAt(head, tail);
    head + tail
  }

  /** The fixed-width part of a line after the position: both bytes at fixed offsets. */
  function Tail(b1: bv8, b2: bv8): (t: string)
    ensures |t| == TailLength
    ensures t[..6] == ", f1: " && t[6..8] == Hex2(b1)
    ensures t[8..14] == ", f2: " && t[14..16] == Hex2(b2) && t[16..] == " \n"
  {
    ", f1: " + Hex2(b1) + ", f2: " + Hex2(b2) + " \n"
  }

  /** No line holds a '%', so handing it to `log.Printf` as a format string (main.go:141)
      prints it unchanged. */
  lemma LineHasNoPercent(r: MismatchRecord)
    ensures '%' !in Line(r)
  {
    var p, t := Pad2(r.pos), Tail(r.b1, r.b2);
    Pad2NoPercent(r.pos);
    TailNoPercent(r.b1, r.b2);
    NoPercentAppend("Pos: ", p);
    NoPercentAppend("Pos: " + p, t);
    assert Line(r) == ("Pos: " + p) + t;
  }

  lemma Pad2NoPercent(n: nat)
    ensures NoPercent(Pad2(n))
  {
    var p, d := Pad2(n), Decimal(n);
    forall i | 0 <= i < |p|
      ensures p[i] != '%'
    {
      if i >= |p| - |d| {
        assert p[i] == d[i - (|p| - |d|)];
      }
    }
  }

  lemma TailNoPercent(b1: bv8, b2: bv8)
    ensures NoPercent(Tail(b1, b2))
  {
    var h1, h2 := Hex2(b1), Hex2(b2);
    NoPercentAppend(", f1: ", h1);
    NoPercentAppend(", f1: " + h1, ", f2: ");
    NoPercentAppend(", f1: " + h1 + ", f2: ", h2);
    NoPercentAppend(", f1: " + h1 + ", f2: " + h2, " \n");
  }

  predicate NoPercent(s: string) { forall i :: 0 <= i < |s| ==> s[i] != '%' }

  lemma NoPercentAppend(a: string, b: string)
    requires NoPercent(a) && NoPercent(b)
    ensures NoPercent(a + b) && '%' !in a + b
  {
    assert forall i :: 0 <= i < |a + b| ==> (a + b)[i] == if i < |a| then a[i] else b[i - |a|];
  }

  /** Recovers the record from a line of the shape `Line` prints, or nothing. */
  function ParseLine(s: string): Option<MismatchRecord>
  {
    if |s| < 5 + TailLength || s[..5] != "Pos: " then None
    else
      var field := s[5..|s| - TailLength];
      var tail := s[|s| - TailLength..];
      if tail[..6] != ", f1: " || tail[8..14] != ", f2: " || tail[16..] != " \n" then None
      else
        match (ParsePadded(field), ParseHex2(tail[6..8]), ParseHex2(tail[14..16]))
        case (Some(pos), Some(b1), Some(b2)) => Some(MismatchRecord(pos, b1, b2))
        case _ => None
  }

  /** Every line can be read back: the format loses neither the position nor either byte. */
  lemma LineRoundTrip(r: MismatchRecord)
    ensures ParseLine(Line(r)) == Some(r)
  {
    var p := Pad2(r.pos);
    var tail := Tail(r.b1, r.b2);
    assert Line(r) == ("Pos: " + p) + tail;
    Pad2RoundTrip(r.pos);
    assert ParseHex2(Hex2(r.b1)) == Some(r.b1);
    assert ParseHex2(Hex2(r.b2)) == Some(r.b2);
    ParseHalves(p, tail, r);
  }

  /** `ParseLine` reads the position field and the tail separately. */
  lemma ParseHalves(p: string, tail: string, r: MismatchRecord)
    requires |tail| == TailLength
    requires tail[..6] == ", f1: " && tail[8..14] == ", f2: " && tail[16..] == " \n"
    requires ParsePadded(p) == Some(r.pos)
    requires ParseHex2(tail[6..8]) == Some(r.b1) && ParseHex2(tail[14..16]) == Some(r.b2)
    ensures ParseLine(("Pos: " + p) + tail) == Some(r)
  {
    var s := ("Pos: " + p) + tail;
    SplitAt("Pos: " + p, tail);
    SplitAt("Pos: ", p);
    assert s[..5] == "Pos: ";
    assert s[5..|s| - TailLength] == p;
    assert s[|s| - TailLength..] == tail;
  }

  lemma SplitAt(a: string, b: string)
    ensures (a + b)[..|a|] == a && (a + b)[|a|..] == b
  {
  }

  /** Two different mismatches never print the same line. */
  lemma LineInjective(r: MismatchRecord, r': MismatchRecord)
    ensures Line(r) == Line(r') ==> r == r'
  {
    LineRoundTrip(r);
    LineRoundTrip(r');
  }
}
