/** The input-file loop of the exchange-rate tool (ex00/main.cpp): splitting a line at its
    first '|', and the fixed order of checks that turns each line into one report. */
module BitcoinMain {
  import opened Wrappers
  import opened Text
  import opened BitcoinExchange

  /** The two sides of a `date | value` line, each trimmed. */
  datatype Fields = Fields(date: string, value: string)

  /** The separator `splitPipe` looks for. */
  const Bar: char := '|'

  /** Position `b` holds the first bar of the line. */
  predicate FirstBarAt(line: string, b: int) {
    0 <= b < |line| && line[b] == Bar && Bar !in line[..b]
  }

  /** `line.find('|')` from position `i`: the first bar at or after `i`. */
  function FindBar(line: string, i: nat): (r: Option<nat>)
    requires i <= |line|
    ensures r.None? <==> Bar !in line[i..]
    ensures r.Some? ==> i <= r.value < |line| && line[r.value] == Bar && Bar !in line[i..r.value]
    decreases |line| - i
  {
    if i == |line| then None
    else if line[i] == Bar then Some(i)
    else
      var r := FindBar(line, i + 1);
      assert line[i..] == [line[i]] + line[i + 1..];
      assert r.Some? ==> line[i..r.value] == [line[i]] + line[i + 1..r.value];
      r
  }

  /** `splitPipe` (lines 13-19): no result when the line has no bar; otherwise the trimmed text
      before the first bar and the trimmed text after it. */
  function SplitPipe(line: string): (r: Option<Fields>)
    ensures r.None? <==> Bar !in line
    ensures r.Some? ==>
              exists b :: FirstBarAt(line, b) && r.value == Fields(Trim(line[..b]), Trim(line[b + 1..]))
  {
    assert line[0..] == line;
    match FindBar(line, 0)
    case None => None
    case Some(b) =>
      assert line[0..b] == line[..b];
      assert FirstBarAt(line, b);
      Some(Fields(Trim(line[..b]), Trim(line[b + 1..])))
  }

  /** Joining a bar-free date field and any value with '|' and splitting again gives the two
      trimmed fields back; the value may itself contain bars. */
  lemma SplitPipeJoin(date: string, value: string)
    requires Bar !in date
    ensures SplitPipe(date + [Bar] + value) == Some(Fields(Trim(date), Trim(value)))
  {
    var line := date + [Bar] + value;
    assert forall t | 0 <= t < |date| :: line[t] == date[t];
    assert line[|date|] == Bar;
    var b := FindBar(line, 0).value;
    assert line[0..] == line && line[0..b] == line[..b];
    assert b == |date|;
    assert line[..b] == date && line[b + 1..] == value;
  }

  // ---------------------------------------------------------------------------
  // One line of the input file

  /** What the loop body of lines 56-88 does with one line: skips it, or prints one message. */
  datatype Report =
    | Blank
    | BadInput(line: string)
    | NotPositive
    | TooLarge
    | NoRate(date: string)
    | Converted(date: string, value: real, rate: real)

  /** A bar, a valid date before it and a number after it. */
  predicate WellFormedLine(line: string, convert: string -> Option<real>) {
    && SplitPipe(line).Some?
    && ValidDate(SplitPipe(line).value.date)
    && NumberValue(SplitPipe(line).value.value, convert).Some?
  }

  /** The report a line deserves, checked in the order of lines 57-85: blank lines are skipped;
      a line without a bar, a valid date and a number is bad input; then the sign, then the
      upper bound 1000, then the existence of a rate on or before the date. */
  ghost predicate Classifies(line: string, rates: map<string, real>,
                             convert: string -> Option<real>, r: Report)
  {
    if AllSpace(line) then r == Blank
    else if !WellFormedLine(line, convert) then r == BadInput(line)
    else
      var date := SplitPipe(line).value.date;
      var v := NumberValue(SplitPipe(line).value.value, convert).value;
      if v < 0.0 then r == NotPositive
      else if v > 1000.0 then r == TooLarge
      else if forall k | k in rates :: LexLess(date, k) then r == NoRate(date)
      else
        && r.Converted? && r.date == date && r.value == v
        && exists k :: IsFloorKey(rates, date, k) && r.rate == rates[k]
  }

  /** A line has exactly one report. */
  lemma ClassificationUnique(line: string, rates: map<string, real>,
                             convert: string -> Option<real>, r1: Report, r2: Report)
    requires Classifies(line, rates, convert, r1) && Classifies(line, rates, convert, r2)
    ensures r1 == r2
  {
    if r1.Converted? {
      var date := SplitPipe(line).value.date;
      var k1 :| IsFloorKey(rates, date, k1) && r1.rate == rates[k1];
      var k2 :| IsFloorKey(rates, date, k2) && r2.rate == rates[k2];
      FloorKeyUnique(rates, date, k1, k2);
    }
  }

  /** The loop body of lines 57-87, for one line of the input file. */
  method ClassifyLine(line: string, rates: map<string, real>, convert: string -> Option<real>)
    returns (r: Report)
    ensures Classifies(line, rates, convert, r)
    ensures r.Blank? <==> AllSpace(line)
  {
    TrimEmptyIffAllSpace(line);
    if Trim(line) == [] {
      return Blank;
    }
    var fields := SplitPipe(line);
    if fields.None? {
      return BadInput(line);
    }
    var date, valueStr := fields.value.date, fields.value.value;
    var dateOk := IsValidDate(date);
    if !dateOk {
      return BadInput(line);
    }
    var value := ParseNumber(valueStr, convert);
    if value.None? {
      return BadInput(line);
    }
    var v := value.value;
    if v < 0.0 {
      return NotPositive;
    }
    if v > 1000.0 {
      return TooLarge;
    }
    var found, rate := GetRateForDate(rates, date, 0.0);
    if !found {
      return NoRate(date);
    }
    return Converted(date, v, rate);
  }

  // ---------------------------------------------------------------------------
  // The whole input

  /** The lines that are not whitespace only, in order. */
  function NonBlank(lines: seq<string>): (r: seq<string>)
    ensures |r| <= |lines|
    ensures forall j | 0 <= j < |r| :: !AllSpace(r[j]) && r[j] in lines
  {
    if |lines| == 0 then []
    else
      var init := NonBlank(lines[..|lines| - 1]);
      var last := lines[|lines| - 1];
      assert forall j | 0 <= j < |init| :: init[j] in lines by {
        forall j | 0 <= j < |init|
          ensures init[j] in lines
        {
          var q :| 0 <= q < |lines| - 1 && lines[..|lines| - 1][q] == init[j];
        }
      }
      if AllSpace(last) then init else init + [last]
  }

  /** Filtering distributes over concatenation: the kept lines keep their input order. */
  lemma {:induction false} NonBlankConcat(a: seq<string>, b: seq<string>)
    ensures NonBlank(a + b) == NonBlank(a) + NonBlank(b)
    decreases |b|
  {
    if |b| == 0 {
      assert a + b == a;
    } else {
      var ab := a + b;
      var b' := b[..|b| - 1];
      assert ab[..|ab| - 1] == a + b';
      assert ab[|ab| - 1] == b[|b| - 1];
      NonBlankConcat(a, b');
    }
  }

  /** Every line that is not whitespace only is kept as often as it occurs, and no whitespace-only
      line is kept. */
  lemma {:induction false} NonBlankCounts(lines: seq<string>, s: string)
    ensures multiset(NonBlank(lines))[s] == if AllSpace(s) then 0 else multiset(lines)[s]
    decreases |lines|
  {
    if |lines| > 0 {
      var init := lines[..|lines| - 1];
      assert lines == init + [lines[|lines| - 1]];
      NonBlankCounts(init, s);
    }
  }

  /** Each input line that is not whitespace only appears among the kept lines. */
  lemma NonBlankKeepsEvery(lines: seq<string>, i: nat)
    requires i < |lines| && !AllSpace(lines[i])
    ensures lines[i] in NonBlank(lines)
  {
    NonBlankCounts(lines, lines[i]);
    assert lines[i] in multiset(lines);
  }

  /** The loop of lines 56-88 over the lines after the header: one report per line that is not
      whitespace only, in order, and none for the others. */
  method ProcessLines(lines: seq<string>, rates: map<string, real>,
                      convert: string -> Option<real>) returns (out: seq<Report>)
    ensures |out| == |NonBlank(lines)|
    ensures forall j | 0 <= j < |out| :: !out[j].Blank?
    ensures forall j | 0 <= j < |out| :: Classifies(NonBlank(lines)[j], rates, convert, out[j])
  {
    out := [];
    var i := 0;
    while i < |lines|
      invariant 0 <= i <= |lines|
      invariant |out| == |NonBlank(lines[..i])|
      invariant forall j | 0 <= j < |out| :: !out[j].Blank?
      invariant forall j | 0 <= j < |out| :: Classifies(NonBlank(lines[..i])[j], rates, convert, out[j])
    {
      assert lines[..i + 1][..i] == lines[..i];
      var r := ClassifyLine(lines[i], rates, convert);
      if !r.Blank? {
        out := out + [r];
      }
      i := i + 1;
    }
    assert lines[..i] == lines;
  }
}
