/** The argument tokenizer of the merge-insert sort program (`PmergeMe::isAllDigits`,
    `PmergeMe::toIntChecked`, `PmergeMe::parseArgs`): every command-line argument must be a
    decimal number in 1 .. INT_MAX. */
module PmergeParse {
  import opened Wrappers
  import opened Text

  /** `INT_MAX` of a 32-bit `int`. */
  const IntMax: int := 2147483647

  /** Non-empty and made of decimal digits only. */
  predicate AllDigits(s: string) {
    |s| > 0 && Digits(s)
  }

  /** What an argument converts to: its decimal value when it is all digits and in 1 .. INT_MAX. */
  function TokenValue(s: string): Option<int> {
    if AllDigits(s) && 1 <= DecimalValue(s) <= IntMax then Some(DecimalValue(s)) else None
  }

  /** `isAllDigits`: rejects the empty string and stops at the first non-digit. */
  method IsAllDigits(s: string) returns (ok: bool)
    ensures ok <==> |s| > 0 && forall k | 0 <= k < |s| :: '0' <= s[k] <= '9'
  {
    if |s| == 0 {
      return false;
    }
    var i := 0;
    while i < |s|
      invariant 0 <= i <= |s|
      invariant forall k | 0 <= k < i :: '0' <= s[k] <= '9'
    {
      if s[i] < '0' || s[i] > '9' {
        return false;
      }
      i := i + 1;
    }
    return true;
  }

  /** `toIntChecked`: accumulates `acc = acc * 10 + digit` and gives up as soon as the
      accumulator exceeds INT_MAX; zero is rejected at the end. `out` is left as it was on
      failure. The accumulator is a `long long` that never exceeds 10 * INT_MAX + 9, so the
      unbounded integers here compute the same values. */
  method ToIntChecked(s: string, out0: int) returns (ok: bool, out: int)
    ensures ok <==> AllDigits(s) && 1 <= DecimalValue(s) <= IntMax
    ensures ok ==> out == DecimalValue(s)
    ensures !ok ==> out == out0
  {
    out := out0;
    ok := IsAllDigits(s);
    if !ok {
      return;
    }
    var acc := 0;
    var i := 0;
    while i < |s|
      invariant 0 <= i <= |s|
      invariant acc == DecimalValue(s[..i])
      invariant acc <= IntMax
    {
      assert s[..i + 1][..i] == s[..i];
      acc := acc * 10 + DigitValue(s[i]);
      if acc > IntMax {
        DecimalValuePrefix(s, i + 1);
        return false, out0;
      }
      i := i + 1;
    }
    assert s[..i] == s;
    if acc <= 0 {
      return false, out0;
    }
    return true, acc;
  }

  /** The converted arguments, once in each of the two containers the program fills, and
      their count. */
  datatype Parsed = Parsed(vec: seq<int>, deq: seq<int>, count: nat)

  function InvalidTokenMessage(token: string): string {
    "Error: invalid token '" + token + "'"
  }

  /** `parseArgs` over the arguments after the program name (`argv[1] .. argv[argc-1]`):
      converts them in order and throws at the first one that is not a valid token. */
  method ParseArgs(args: seq<string>) returns (res: Result<Parsed>)
    ensures res.Ok? <==> forall i | 0 <= i < |args| :: TokenValue(args[i]).Some?
    ensures res.Ok? ==> && res.value.vec == res.value.deq
                        && res.value.count == |res.value.vec| == |args|
                        && forall i | 0 <= i < |args| :: TokenValue(args[i]) == Some(res.value.vec[i])
    ensures res.Err? ==> exists i | 0 <= i < |args| ::
                           && TokenValue(args[i]).None?
                           && (forall j | 0 <= j < i :: TokenValue(args[j]).Some?)
                           && res.message == InvalidTokenMessage(args[i])
  {
    var vec: seq<int> := [];
    var deq: seq<int> := [];
    var i := 0;
    while i < |args|
      invariant 0 <= i <= |args|
      invariant vec == deq && |vec| == i
      invariant forall j | 0 <= j < i :: TokenValue(args[j]) == Some(vec[j])
    {
      var token := args[i];
      var ok, val := ToIntChecked(token, 0);
      if !ok {
        return Err(InvalidTokenMessage(token));
      }
      vec := vec + [val];
      deq := deq + [val];
      i := i + 1;
    }
    return Ok(Parsed(vec, deq, |vec|));
  }

  /** Every number the program accepts, written in decimal, is read back as itself. */
  lemma TokenRoundTrip(n: int)
    requires 1 <= n <= IntMax
    ensures TokenValue(DecimalString(n)) == Some(n)
  {
    DecimalStringRoundTrip(n);
  }

  /** Leading zeros are accepted and ignored. */
  lemma LeadingZerosAccepted(s: string)
    requires AllDigits(s)
    ensures TokenValue("0" + s) == TokenValue(s)
  {
    LeadingZeroIgnored(s);
    assert AllDigits("0" + s);
  }

  /** A string of zeros is rejected, whatever its length. */
  lemma {:induction false} ZerosRejected(k: nat)
    ensures TokenValue(seq(k, _ => '0')).None?
  {
    ZerosValue(k);
  }

  lemma {:induction false} ZerosValue(k: nat)
    ensures DecimalValue(seq(k, _ => '0')) == 0
  {
    if k > 0 {
      assert seq(k, _ => '0')[..k - 1] == seq(k - 1, _ => '0');
      ZerosValue(k - 1);
    }
  }

  /** A number above INT_MAX, written in decimal, is rejected. */
  lemma OverflowRejected(n: nat)
    requires n > IntMax
    ensures TokenValue(DecimalString(n)).None?
  {
    DecimalStringRoundTrip(n);
  }
}
