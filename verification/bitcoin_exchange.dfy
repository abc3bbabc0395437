/** The validators and the rate lookup of the exchange-rate tool (ex00/BitcoinExchange.cpp):
    leap years, `YYYY-MM-DD` dates, the character-format check of numbers, and the search for
    the rate of a date or of the closest earlier date in a map ordered like `std::string`. */
module BitcoinExchange {
  import opened Wrappers
  import opened Text

  // ---------------------------------------------------------------------------
  // Calendar

  /** `isLeap` (line 55). Only divisibility is tested, and a remainder is zero under C's
      truncating `%` exactly when it is zero under Dafny's Euclidean `%`. */
  predicate IsLeap(y: int) {
    (y % 4 == 0 && y % 100 != 0) || y % 400 == 0
  }

  /** The `mdays` table of line 68 (February without the leap day). */
  function MonthDays(): seq<nat> {
    [31, 28, 31, 30, 31, 30, 31, 31, 30, 31, 30, 31]
  }

  /** The Gregorian month lengths, written independently of the table: thirty days in April,
      June, September and November, February with 28 or (in a leap year) 29, the rest 31. */
  function DaysInMonth(y: int, m: int): nat
    requires 1 <= m <= 12
  {
    if m == 2 then (if IsLeap(y) then 29 else 28)
    else if m == 4 || m == 6 || m == 9 || m == 11 then 30
    else 31
  }

  /** Lines 69-70: the table entry, raised to 29 for February of a leap year, is the length of
      the month. */
  function MaxDay(y: int, m: int): (maxd: nat)
    requires 1 <= m <= 12
    ensures maxd == DaysInMonth(y, m)
  {
    if m == 2 && IsLeap(y) then 29 else MonthDays()[m - 1]
  }

  /** The Gregorian rule repeats every 400 years. */
  lemma LeapPeriod(y: int)
    ensures IsLeap(y + 400) == IsLeap(y)
  {
    assert (y + 400) % 4 == y % 4;
    assert (y + 400) % 100 == y % 100;
    assert (y + 400) % 400 == y % 400;
  }

  lemma LeapExamples()
    ensures IsLeap(2000) && IsLeap(2024) && !IsLeap(1900) && !IsLeap(2023)
  {
  }

  /** Days in the months `1..m`. */
  function DaysBefore(y: int, m: nat): nat
    requires m <= 12
  {
    if m == 0 then 0 else DaysBefore(y, m - 1) + DaysInMonth(y, m)
  }

  /** The month lengths add up to the length of the Gregorian year. */
  lemma YearLength(y: int)
    ensures DaysBefore(y, 12) == if IsLeap(y) then 366 else 365
  {
    assert DaysBefore(y, 1) == 31;
    assert DaysBefore(y, 2) == 31 + DaysInMonth(y, 2);
    assert DaysBefore(y, 4) == DaysBefore(y, 2) + 61;
    assert DaysBefore(y, 6) == DaysBefore(y, 4) + 61;
    assert DaysBefore(y, 8) == DaysBefore(y, 6) + 62;
    assert DaysBefore(y, 10) == DaysBefore(y, 8) + 61;
    assert DaysBefore(y, 12) == DaysBefore(y, 10) + 61;
  }

  // ---------------------------------------------------------------------------
  // Dates

  /** The shape `YYYY-MM-DD`: ten characters, '-' at positions 4 and 7, digits elsewhere. */
  predicate IsDateShaped(d: string) {
    && |d| == 10 && d[4] == '-' && d[7] == '-'
    && forall i | 0 <= i < |d| && i != 4 && i != 7 :: IsDigit(d[i])
  }

  /** Lines 64-66: `atoi` of an all-digit field is its decimal value. */
  function Year(d: string): nat
    requires IsDateShaped(d)
  {
    DecimalValue(d[0..4])
  }

  function Month(d: string): nat
    requires IsDateShaped(d)
  {
    DecimalValue(d[5..7])
  }

  function Day(d: string): nat
    requires IsDateShaped(d)
  {
    DecimalValue(d[8..10])
  }

  /** A real calendar day written as `YYYY-MM-DD`. */
  predicate ValidDate(d: string) {
    && IsDateShaped(d)
    && 1 <= Month(d) <= 12
    && 1 <= Day(d) <= DaysInMonth(Year(d), Month(d))
  }

  /** `isValidDate` (lines 57-73): the shape test, the digit loop, then the month and day
      ranges. */
  method IsValidDate(d: string) returns (ok: bool)
    ensures ok <==> ValidDate(d)
  {
    if |d| != 10 || d[4] != '-' || d[7] != '-' {
      return false;
    }
    var i := 0;
    while i < |d|
      invariant 0 <= i <= |d|
      invariant forall k | 0 <= k < i && k != 4 && k != 7 :: IsDigit(d[k])
    {
      if i != 4 && i != 7 && !IsDigit(d[i]) {
        return false;
      }
      i := i + 1;
    }
    var y := DecimalValue(d[0..4]);
    var m := DecimalValue(d[5..7]);
    var day := DecimalValue(d[8..10]);
    if m < 1 || m > 12 {
      return false;
    }
    var maxd := MaxDay(y, m);
    if day < 1 || day > maxd {
      return false;
    }
    return true;
  }

  /** A date written with zero-padded fields. */
  function FormatDate(y: nat, m: nat, day: nat): (d: string)
    ensures IsDateShaped(d)
  {
    PadDecimal(y, 4) + "-" + PadDecimal(m, 2) + "-" + PadDecimal(day, 2)
  }

  /** Reading the fields of a formatted date gives back the numbers, when they fit. */
  lemma FormatDateRoundTrip(y: nat, m: nat, day: nat)
    requires y < 10000 && m < 100 && day < 100
    ensures Year(FormatDate(y, m, day)) == y
    ensures Month(FormatDate(y, m, day)) == m
    ensures Day(FormatDate(y, m, day)) == day
  {
    var d := FormatDate(y, m, day);
    assert d[0..4] == PadDecimal(y, 4);
    assert d[5..7] == PadDecimal(m, 2);
    assert d[8..10] == PadDecimal(day, 2);
    PadDecimalRoundTrip(y, 4);
    PadDecimalRoundTrip(m, 2);
    PadDecimalRoundTrip(day, 2);
  }

  /** A formatted date is accepted exactly when the month exists and the day exists in that
      month of that year. */
  lemma ValidFormattedDate(y: nat, m: nat, day: nat)
    requires y < 10000 && m < 100 && day < 100
    ensures ValidDate(FormatDate(y, m, day)) <==> 1 <= m <= 12 && 1 <= day <= DaysInMonth(y, m)
  {
    FormatDateRoundTrip(y, m, day);
  }

  /** The 29th of February exists in 2000 (divisible by 400). */
  lemma LeapDayAccepted()
    ensures ValidDate(FormatDate(2000, 2, 29))
  {
    assert DaysInMonth(2000, 2) == 29;
    ValidFormattedDate(2000, 2, 29);
  }

  /** The 29th of February does not exist in 1900 (divisible by 100 only). */
  lemma LeapDayRejected()
    ensures !ValidDate(FormatDate(1900, 2, 29))
  {
    assert DaysInMonth(1900, 2) == 28;
    ValidFormattedDate(1900, 2, 29);
  }

  // ---------------------------------------------------------------------------
  // Number format

  /** Number of characters before the digits: one for a leading '+' or '-' (line 81). */
  function SignLength(t: string): (b: nat)
    ensures b <= 1 && (b <= |t|)
  {
    if |t| > 0 && (t[0] == '+' || t[0] == '-') then 1 else 0
  }

  /** No two positions from `b` on both hold '.'. */
  predicate AtMostOneDot(t: string, b: nat) {
    forall i, j | b <= i < j < |t| :: t[i] == '.' ==> t[j] != '.'
  }

  /** The accepted format: non-empty; after an optional sign only digits and '.'; at most one
      '.'. The sign alone, or a lone '.', has this shape: such strings are left to the
      conversion to refuse. */
  predicate NumberShape(t: string) {
    && |t| > 0
    && (forall k | SignLength(t) <= k < |t| :: IsDigit(t[k]) || t[k] == '.')
    && AtMostOneDot(t, SignLength(t))
  }

  /** Lines 78-86 of `parseNumber`: the emptiness test and the character loop with `dotSeen`. */
  method CheckNumberFormat(t: string) returns (ok: bool)
    ensures ok <==> NumberShape(t)
  {
    if |t| == 0 {
      return false;
    }
    var dotSeen := false;
    ghost var dotAt := 0;
    var b := SignLength(t);
    var i := b;
    while i < |t|
      invariant b <= i <= |t|
      invariant forall k | b <= k < i :: IsDigit(t[k]) || t[k] == '.'
      invariant forall k, l | b <= k < l < i :: t[k] == '.' ==> t[l] != '.'
      invariant dotSeen ==> b <= dotAt < i && t[dotAt] == '.'
      invariant !dotSeen ==> forall k | b <= k < i :: t[k] != '.'
    {
      if t[i] == '.' {
        if dotSeen {
          return false;
        }
        dotSeen := true;
        dotAt := i;
      } else if !IsDigit(t[i]) {
        return false;
      }
      i := i + 1;
    }
    return true;
  }

  /** `parseNumber` (lines 75-90). The stream conversion of lines 87-89 is the parameter
      `convert`: `Some(v)` when `istringstream >> double` reads `v`, `None` when it fails. */
  method ParseNumber(s: string, convert: string -> Option<real>) returns (r: Option<real>)
    ensures !NumberShape(Trim(s)) ==> r == None
    ensures NumberShape(Trim(s)) ==> r == convert(Trim(s))
    ensures r == NumberValue(s, convert)
  {
    var t := Trim(s);
    var ok := CheckNumberFormat(t);
    if !ok {
      return None;
    }
    return convert(t);
  }

  /** The value a field stands for: the conversion of the trimmed text, if it passes the
      format check. */
  function NumberValue(s: string, convert: string -> Option<real>): Option<real> {
    if NumberShape(Trim(s)) then convert(Trim(s)) else None
  }

  /** Two dots are refused. */
  lemma TwoDotsRefused()
    ensures !NumberShape("1.2.3")
  {
    var t := "1.2.3";
    assert t[1] == '.' && t[3] == '.';
  }

  /** A letter is refused, so there is no exponent notation; so is a sign after the first
      position. */
  lemma StrayCharactersRefused()
    ensures !NumberShape("") && !NumberShape("1e3") && !NumberShape("1-2") && !NumberShape("++1")
  {
    assert "1e3"[1] == 'e';
    assert "1-2"[1] == '-';
    assert "++1"[1] == '+';
  }

  /** A signed decimal passes, and so do the bare sign and dot, which only the conversion
      refuses. */
  lemma NumberShapeAccepted()
    ensures NumberShape("-12.5") && NumberShape("+.")
  {
    var t := "-12.5";
    assert SignLength(t) == 1;
    assert forall k | 1 <= k < 5 :: t[k] == '.' <==> k == 3;
  }

  // ---------------------------------------------------------------------------
  // std::string order and the floor lookup

  /** `std::string` comparison: at the first position where the strings differ the smaller
      character (compared as `unsigned char` by `char_traits`) decides; otherwise the shorter
      string comes first. */
  predicate LexLess(a: string, b: string)
    decreases |a|
  {
    if |a| == 0 then |b| > 0
    else if |b| == 0 then false
    else if a[0] != b[0] then a[0] < b[0]
    else LexLess(a[1..], b[1..])
  }

  predicate LexLessEq(a: string, b: string) {
    a == b || LexLess(a, b)
  }

  lemma {:induction false} LexLessIrreflexive(a: string)
    ensures !LexLess(a, a)
  {
    if |a| > 0 {
      LexLessIrreflexive(a[1..]);
    }
  }

  lemma {:induction false} LexLessAsymmetric(a: string, b: string)
    ensures LexLess(a, b) ==> !LexLess(b, a)
  {
    if |a| > 0 && |b| > 0 && a[0] == b[0] {
      LexLessAsymmetric(a[1..], b[1..]);
    }
  }

  lemma {:induction false} LexLessTransitive(a: string, b: string, c: string)
    requires LexLess(a, b) && LexLess(b, c)
    ensures LexLess(a, c)
  {
    if |a| > 0 && |b| > 0 && |c| > 0 && a[0] == b[0] && b[0] == c[0] {
      LexLessTransitive(a[1..], b[1..], c[1..]);
    }
  }

  /** Two different strings are ordered one way or the other. */
  lemma {:induction false} LexLessTotal(a: string, b: string)
    ensures a == b || LexLess(a, b) || LexLess(b, a)
  {
    if |a| > 0 && |b| > 0 && a[0] == b[0] {
      LexLessTotal(a[1..], b[1..]);
      if a[1..] == b[1..] {
        assert a == [a[0]] + a[1..] && b == [b[0]] + b[1..];
      }
    }
  }

  /** Comparing two concatenations whose first parts have the same length: the first parts
      decide unless they are equal. */
  lemma {:induction false} LexLessConcat(p: string, q: string, p2: string, q2: string)
    requires |p| == |p2|
    ensures LexLess(p + q, p2 + q2) == if p == p2 then LexLess(q, q2) else LexLess(p, p2)
  {
    if |p| > 0 {
      assert (p + q)[0] == p[0] && (p2 + q2)[0] == p2[0];
      if p[0] == p2[0] {
        assert (p + q)[1..] == p[1..] + q && (p2 + q2)[1..] == p2[1..] + q2;
        LexLessConcat(p[1..], q, p2[1..], q2);
        assert p == [p[0]] + p[1..] && p2 == [p2[0]] + p2[1..];
      }
    } else {
      assert p + q == q && p2 + q2 == q2;
    }
  }

  /** Of two digit strings of one length, the one with the smaller first digit is smaller. */
  lemma HeadDigitDecides(c: char, r: string, c2: char, r2: string)
    requires IsDigit(c) && IsDigit(c2) && Digits(r) && Digits(r2) && |r| == |r2|
    requires DigitValue(c) < DigitValue(c2)
    ensures DecimalValue([c] + r) < DecimalValue([c2] + r2)
  {
    DecimalValueFront(c, r);
    DecimalValueFront(c2, r2);
    DecimalValueBound(r);
    MulMonotonic(DigitValue(c) + 1, DigitValue(c2), Pow10(|r|));
  }

  lemma MulMonotonic(a: nat, b: nat, p: nat)
    requires a <= b
    ensures a * p <= b * p
  {
  }

  /** On digit strings of one length the string order is the numeric order. */
  lemma {:induction false} DigitsOrder(x: string, y: string)
    requires Digits(x) && Digits(y) && |x| == |y|
    ensures LexLess(x, y) <==> DecimalValue(x) < DecimalValue(y)
    ensures x == y <==> DecimalValue(x) == DecimalValue(y)
  {
    if |x| > 0 {
      var x', y' := x[1..], y[1..];
      assert x == [x[0]] + x' && y == [y[0]] + y';
      if x[0] == y[0] {
        DecimalValueFront(x[0], x');
        DecimalValueFront(y[0], y');
        DigitsOrder(x', y');
      } else if x[0] < y[0] {
        HeadDigitDecides(x[0], x', y[0], y');
      } else {
        HeadDigitDecides(y[0], y', x[0], x');
        LexLessAsymmetric(y, x);
      }
    }
  }

  /** `a` falls on an earlier calendar day than `b`. */
  predicate Before(a: string, b: string)
    requires IsDateShaped(a) && IsDateShaped(b)
  {
    || Year(a) < Year(b)
    || (Year(a) == Year(b) && Month(a) < Month(b))
    || (Year(a) == Year(b) && Month(a) == Month(b) && Day(a) < Day(b))
  }

  /** Compares two dates field by field: the string order first tests the year digits, then the
      '-', the month digits, the '-', and the day digits. */
  lemma DateFieldsOrder(a: string, b: string)
    requires IsDateShaped(a) && IsDateShaped(b)
    ensures LexLess(a, b) == if a[..4] != b[..4] then LexLess(a[..4], b[..4])
                             else if a[5..7] != b[5..7] then LexLess(a[5..7], b[5..7])
                             else LexLess(a[8..], b[8..])
  {
    FieldThenRest(a, b, 0, 4);
    FieldThenRest(a, b, 5, 7);
    assert a[0..] == a && b[0..] == b;
    assert a[0..4] == a[..4] && b[0..4] == b[..4];
  }

  /** Past a common separator at `j`, the comparison of `s[i..]` is that of the field
      `s[i..j]`, then of what follows the separator. */
  lemma FieldThenRest(a: string, b: string, i: nat, j: nat)
    requires i <= j < |a| && j < |b| && a[j] == b[j]
    ensures LexLess(a[i..], b[i..]) == if a[i..j] != b[i..j] then LexLess(a[i..j], b[i..j])
                                       else LexLess(a[j + 1..], b[j + 1..])
  {
    assert a[i..] == a[i..j] + a[j..];
    assert b[i..] == b[i..j] + b[j..];
    LexLessConcat(a[i..j], a[j..], b[i..j], b[j..]);
    assert a[j..][1..] == a[j + 1..];
    assert b[j..][1..] == b[j + 1..];
  }

  /** The map keys are dates, and `std::string` order on well-shaped dates is calendar order:
      this is why the key just before a date is the closest earlier day. */
  lemma DateOrderIsChronological(a: string, b: string)
    requires IsDateShaped(a) && IsDateShaped(b)
    ensures LexLess(a, b) <==> Before(a, b)
  {
    DateFieldsOrder(a, b);
    DigitsOrder(a[..4], b[..4]);
    DigitsOrder(a[5..7], b[5..7]);
    DigitsOrder(a[8..], b[8..]);
    assert a[0..4] == a[..4] && b[0..4] == b[..4];
    assert a[8..10] == a[8..] && b[8..10] == b[8..];
  }

  /** `k` is the greatest key of `rates` not after `date`. */
  predicate IsFloorKey<V>(rates: map<string, V>, date: string, k: string) {
    && k in rates && LexLessEq(k, date)
    && forall k' | k' in rates && LexLessEq(k', date) :: LexLessEq(k', k)
  }

  /** A map has at most one floor key for a date, so the rate found is determined. */
  lemma FloorKeyUnique<V>(rates: map<string, V>, date: string, k1: string, k2: string)
    requires IsFloorKey(rates, date, k1) && IsFloorKey(rates, date, k2)
    ensures k1 == k2
  {
    assert LexLessEq(k1, k2) && LexLessEq(k2, k1);
    LexLessAsymmetric(k1, k2);
  }

  /** `getRateForDate` (lines 43-53): the rate of the exact date when it is a key; otherwise
      the rate of the greatest key before it (`upper_bound`, then one step back); `false`
      with `rate` untouched when every key is after the date. The ordered search of
      `std::map` is modelled by a scan of the keys. */
  method GetRateForDate<V>(rates: map<string, V>, date: string, rate0: V)
    returns (found: bool, rate: V)
    ensures date in rates ==> found && rate == rates[date]
    ensures found ==> exists k :: IsFloorKey(rates, date, k) && rate == rates[k]
    ensures !found <==> forall k | k in rates :: LexLess(date, k)
    ensures !found ==> rate == rate0
  {
    if date in rates {
      LexLessIrreflexive(date);
      forall k' | k' in rates && LexLessEq(k', date)
        ensures LexLessEq(k', date)
      {
      }
      assert IsFloorKey(rates, date, date);
      return true, rates[date];
    }
    var best: Option<string> := None;
    var remaining := rates.Keys;
    while remaining != {}
      invariant remaining <= rates.Keys
      invariant best.Some? ==> best.value in rates && LexLess(best.value, date)
      invariant best.Some? ==> forall k | k in rates.Keys - remaining && LexLess(k, date) ::
                                 LexLessEq(k, best.value)
      invariant best.None? ==> forall k | k in rates.Keys - remaining :: !LexLess(k, date)
      decreases |remaining|
    {
      var k :| k in remaining;
      if LexLess(k, date) {
        if best.None? || LexLess(best.value, k) {
          if best.Some? {
            forall k' | k' in rates.Keys - remaining && LexLess(k', date)
              ensures LexLessEq(k', k)
            {
              if k' != best.value {
                LexLessTransitive(k', best.value, k);
              }
            }
          }
          best := Some(k);
        } else {
          LexLessTotal(best.value, k);
        }
      }
      remaining := remaining - {k};
    }
    if best.None? {
      forall k | k in rates
        ensures LexLess(date, k)
      {
        LexLessTotal(k, date);
      }
      return false, rate0;
    }
    var f := best.value;
    assert IsFloorKey(rates, date, f);
    if forall k | k in rates :: LexLess(date, k) {
      LexLessAsymmetric(f, date);
    }
    return true, rates[f];
  }
}
