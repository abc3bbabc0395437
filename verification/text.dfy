/** Character classes, whitespace trimming and decimal digit strings, shared by the
    exchange-rate tool (ex00) and the argument tokenizer of the merge-insert sort (ex02). */
module Text {

  /** `std::isspace` in the "C" locale: space, and tab, line feed, vertical tab, form feed,
      carriage return (codes 9 to 13). */
  predicate IsSpace(c: char) {
    c == ' ' || ('\t' <= c <= '\r')
  }

  /** `std::isdigit` in the "C" locale. */
  predicate IsDigit(c: char) {
    '0' <= c <= '9'
  }

  predicate AllSpace(s: string) {
    forall k | 0 <= k < |s| :: IsSpace(s[k])
  }

  /** Every character is a decimal digit (the empty string qualifies). */
  predicate Digits(s: string) {
    forall k | 0 <= k < |s| :: IsDigit(s[k])
  }

  /** No whitespace at either end. */
  predicate NoEdgeSpace(r: string) {
    |r| == 0 || (!IsSpace(r[0]) && !IsSpace(r[|r| - 1]))
  }

  /** `r` is obtained from `s` by deleting a whitespace prefix and a whitespace suffix only. */
  ghost predicate IsTrimOf(s: string, r: string) {
    exists i, j | 0 <= i <= j <= |s| :: r == s[i..j] && AllSpace(s[..i]) && AllSpace(s[j..])
  }

  // ---------------------------------------------------------------------------
  // trim

  /** The first loop of `trim`: the first index at or after `i` that is not whitespace. */
  function SkipLeading(s: string, i: nat): (k: nat)
    requires i <= |s|
    ensures i <= k <= |s|
    ensures forall t | i <= t < k :: IsSpace(s[t])
    ensures k == |s| || !IsSpace(s[k])
    decreases |s| - i
  {
    if i < |s| && IsSpace(s[i]) then SkipLeading(s, i + 1) else i
  }

  /** The second loop of `trim`: moves the end `j` left over whitespace, never below `i`. */
  function SkipTrailing(s: string, i: nat, j: nat): (k: nat)
    requires i <= j <= |s|
    ensures i <= k <= j
    ensures forall t | k <= t < j :: IsSpace(s[t])
    ensures k == i || !IsSpace(s[k - 1])
    decreases j
  {
    if j > i && IsSpace(s[j - 1]) then SkipTrailing(s, i, j - 1) else j
  }

  /** `trim`: removes leading and trailing whitespace and nothing else. */
  function Trim(s: string): (r: string)
    ensures |r| <= |s|
    ensures IsTrimOf(s, r)
    ensures NoEdgeSpace(r)
  {
    var i := SkipLeading(s, 0);
    var j := SkipTrailing(s, i, |s|);
    assert AllSpace(s[..i]) && AllSpace(s[j..]);
    s[i..j]
  }

  /** Trimming a string with no whitespace at its ends changes nothing; in particular
      trimming twice is trimming once. */
  lemma TrimIdempotent(s: string)
    ensures Trim(Trim(s)) == Trim(s)
  {
    TrimOfTrimmed(Trim(s));
  }

  lemma TrimOfTrimmed(r: string)
    requires NoEdgeSpace(r)
    ensures Trim(r) == r
  {
    if |r| > 0 {
      assert SkipLeading(r, 0) == 0;
      assert SkipTrailing(r, 0, |r|) == |r|;
    }
  }

  /** Trimming removes exactly the whitespace padding around a string with no whitespace at
      its ends. */
  lemma TrimPadded(a: string, r: string, b: string)
    requires AllSpace(a) && AllSpace(b) && NoEdgeSpace(r)
    ensures Trim(a + r + b) == r
  {
    var s := a + r + b;
    var e := |a| + |r|;
    assert forall t | 0 <= t < |a| :: s[t] == a[t];
    assert forall t | e <= t < |s| :: s[t] == b[t - e];
    if |r| == 0 {
      assert AllSpace(s);
      TrimEmptyIffAllSpace(s);
      return;
    }
    assert s[|a|] == r[0] && s[e - 1] == r[|r| - 1];
    var i := SkipLeading(s, 0);
    assert i == |a|;
    var j := SkipTrailing(s, i, |s|);
    assert j == e;
    assert s[i..j] == r;
  }

  /** The result is empty exactly when the input is all whitespace. */
  lemma TrimEmptyIffAllSpace(s: string)
    ensures Trim(s) == [] <==> AllSpace(s)
  {
    var i := SkipLeading(s, 0);
    if AllSpace(s) {
      assert i == |s|;
    } else {
      assert i < |s|;
      assert SkipTrailing(s, i, |s|) > i;
    }
  }

  // ---------------------------------------------------------------------------
  // decimal digit strings

  function DigitValue(c: char): (v: nat)
    requires IsDigit(c)
    ensures v <= 9
  {
    (c - '0') as nat
  }

  function DigitChar(v: nat): (c: char)
    requires v <= 9
    ensures IsDigit(c) && DigitValue(c) == v
  {
    ('0' as int + v) as char
  }

  /** The value of a string of decimal digits, read left to right as `acc = acc * 10 + digit`
      (leading zeros contribute nothing). */
  function DecimalValue(s: string): nat
    requires Digits(s)
  {
    if |s| == 0 then 0 else 10 * DecimalValue(s[..|s| - 1]) + DigitValue(s[|s| - 1])
  }

  function Pow10(w: nat): (p: nat)
    ensures p >= 1
  {
    if w == 0 then 1 else 10 * Pow10(w - 1)
  }

  /** `n` written in exactly `w` decimal digits, with leading zeros (the `YYYY`, `MM`, `DD`
      fields of a date). */
  function PadDecimal(n: nat, w: nat): (s: string)
    ensures |s| == w && Digits(s)
  {
    if w == 0 then [] else PadDecimal(n / 10, w - 1) + [DigitChar(n % 10)]
  }

  /** `n` in decimal without leading zeros. */
  function DecimalString(n: nat): (s: string)
    ensures |s| >= 1 && Digits(s)
    ensures n > 0 ==> s[0] != '0'
  {
    if n < 10 then [DigitChar(n)] else DecimalString(n / 10) + [DigitChar(n % 10)]
  }

  /** Reading back a padded field gives the number, when it fits in the width. */
  lemma {:induction false} PadDecimalRoundTrip(n: nat, w: nat)
    requires n < Pow10(w)
    ensures DecimalValue(PadDecimal(n, w)) == n
  {
    if w > 0 {
      var s := PadDecimal(n, w);
      assert s[..|s| - 1] == PadDecimal(n / 10, w - 1);
      PadDecimalRoundTrip(n / 10, w - 1);
    }
  }

  lemma {:induction false} DecimalStringRoundTrip(n: nat)
    ensures DecimalValue(DecimalString(n)) == n
  {
    var s := DecimalString(n);
    if n < 10 {
      assert s[..0] == [];
    } else {
      assert s[..|s| - 1] == DecimalString(n / 10);
      DecimalStringRoundTrip(n / 10);
    }
  }

  /** A prefix of a digit string never has a larger value (the accumulator only grows). */
  lemma {:induction false} DecimalValuePrefix(s: string, i: nat)
    requires Digits(s) && i <= |s|
    ensures DecimalValue(s[..i]) <= DecimalValue(s)
    decreases |s| - i
  {
    if i < |s| {
      var t := s[..i + 1];
      assert t[..|t| - 1] == s[..i];
      DecimalValuePrefix(s, i + 1);
    } else {
      assert s[..i] == s;
    }
  }

  /** A string of `w` digits has a value below `10^w`. */
  lemma {:induction false} DecimalValueBound(s: string)
    requires Digits(s)
    ensures DecimalValue(s) < Pow10(|s|)
  {
    if |s| > 0 {
      DecimalValueBound(s[..|s| - 1]);
    }
  }

  /** Reading from the front: the first digit weighs `10^(number of digits after it)`. */
  lemma {:induction false} DecimalValueFront(c: char, r: string)
    requires IsDigit(c) && Digits(r)
    ensures DecimalValue([c] + r) == DigitValue(c) * Pow10(|r|) + DecimalValue(r)
  {
    var s := [c] + r;
    if |r| == 0 {
      assert s[..0] == [];
    } else {
      var r' := r[..|r| - 1];
      assert s[..|s| - 1] == [c] + r';
      DecimalValueFront(c, r');
      var d, p, v, e := DigitValue(c), Pow10(|r'|), DecimalValue(r'), DigitValue(r[|r| - 1]);
      assert DecimalValue(s) == 10 * DecimalValue([c] + r') + e by {
        assert s[|s| - 1] == r[|r| - 1];
      }
      assert DecimalValue(r) == 10 * v + e;
      ShiftDigit(d, p, v, e);
    }
  }

  lemma ShiftDigit(d: int, p: int, v: int, e: int)
    ensures 10 * (d * p + v) + e == d * (10 * p) + (10 * v + e)
  {
  }

  /** A leading zero does not change the value. */
  lemma {:induction false} LeadingZeroIgnored(s: string)
    requires Digits(s)
    ensures DecimalValue("0" + s) == DecimalValue(s)
  {
    if |s| > 0 {
      var t := "0" + s;
      assert t[..|t| - 1] == "0" + s[..|s| - 1];
      LeadingZeroIgnored(s[..|s| - 1]);
    } else {
      assert ("0" + s)[..0] == [];
    }
  }
}
