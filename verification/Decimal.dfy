/** Decimal text of integers: the printer behind `{created}` and the checked 64-bit parser. */
module Decimal {
  import opened Errors
  import opened Int64

  predicate IsDigit(c: char) {
    '0' <= c <= '9'
  }

  predicate AllDigits(s: string) {
    forall c | c in s :: IsDigit(c)
  }

  function DigitValue(c: char): (d: nat)
    requires IsDigit(c)
    ensures d < 10
  {
    c as int - '0' as int
  }

  function DigitChar(d: nat): (c: char)
    requires d < 10
    ensures IsDigit(c) && DigitValue(c) == d
  {
    ('0' as int + d) as char
  }

  /** The number a digit string denotes. */
  function Value(s: string): (n: nat)
    requires AllDigits(s)
  {
    if s == "" then 0 else Value(s[..|s| - 1]) * 10 + DigitValue(s[|s| - 1])
  }

  function NatText(n: nat): (s: string) {
    if n < 10 then [DigitChar(n)] else NatText(n / 10) + [DigitChar(n % 10)]
  }

  /** Integers print in decimal with a minus sign when negative. */
  function Text(x: int): (s: string) {
    if x < 0 then "-" + NatText(-x) else NatText(x)
  }

  /** The printed form is non-empty digits with no leading zero, and denotes the number. */
  lemma {:induction false} ValueOfNatText(n: nat)
    ensures NatText(n) != "" && AllDigits(NatText(n)) && Value(NatText(n)) == n
    ensures n != 0 ==> NatText(n)[0] != '0'
  {
    var s := NatText(n);
    if n < 10 {
      assert s[..0] == "";
    } else {
      ValueOfNatText(n / 10);
      assert s[..|s| - 1] == NatText(n / 10);
    }
  }

  /** The standard library's parser: multiply and add left to right, failing at the first overflow. */
  function ParseChecked(s: string, total: I64): (r: Option<I64>)
    requires AllDigits(s) && 0 <= total
    ensures r.Some? ==> 0 <= r.value
  {
    if s == "" then Some(total)
    else if total * 10 > I64_MAX then None
    else if total * 10 + DigitValue(s[0]) > I64_MAX then None
    else ParseChecked(s[1..], total * 10 + DigitValue(s[0]))
  }

  /** The number denoted by `s` written after the digits of `total`. */
  function ValueAfter(total: nat, s: string): (n: nat)
    requires AllDigits(s)
    ensures total <= n
    decreases |s|
  {
    if s == "" then total else ValueAfter(total * 10 + DigitValue(s[0]), s[1..])
  }

  lemma {:induction false} ValueAfterAppend(total: nat, s: string, c: char)
    requires AllDigits(s) && IsDigit(c)
    ensures ValueAfter(total, s + [c]) == ValueAfter(total, s) * 10 + DigitValue(c)
    decreases |s|
  {
    if s == "" {
      assert s + [c] == [c];
      assert ValueAfter(total * 10 + DigitValue(c), [c][1..]) == total * 10 + DigitValue(c);
    } else {
      assert (s + [c])[0] == s[0] && (s + [c])[1..] == s[1..] + [c];
      ValueAfterAppend(total * 10 + DigitValue(s[0]), s[1..], c);
    }
  }

  lemma {:induction false} ValueAfterZero(s: string)
    requires AllDigits(s)
    ensures ValueAfter(0, s) == Value(s)
  {
    if s == "" {
    } else {
      var n := |s| - 1;
      ValueAfterZero(s[..n]);
      ValueAfterAppend(0, s[..n], s[n]);
      assert s == s[..n] + [s[n]];
    }
  }

  lemma {:induction false} ParseCheckedIsBounded(s: string, total: I64)
    requires AllDigits(s) && 0 <= total
    ensures ParseChecked(s, total) ==
            if ValueAfter(total, s) <= I64_MAX then Some(ValueAfter(total, s)) else None
  {
    if s == "" {
    } else if total * 10 + DigitValue(s[0]) <= I64_MAX {
      ParseCheckedIsBounded(s[1..], total * 10 + DigitValue(s[0]));
    }
  }

  // ---------------------------------------------------------------- canonical and other spellings

  /** A digit string without a superfluous leading zero. */
  predicate CanonicalDigits(s: string) {
    s == "0" || (s != "" && s[0] != '0')
  }

  lemma {:induction false} TextOfValue(s: string)
    requires AllDigits(s) && CanonicalDigits(s)
    ensures NatText(Value(s)) == s && (s != "0" ==> Value(s) > 0)
  {
    var n := |s| - 1;
    if n == 0 {
      assert s[..0] == "" && s == [s[0]];
    } else {
      assert s[..n][0] == s[0];
      TextOfValue(s[..n]);
      assert s == s[..n] + [s[n]];
    }
  }

  /** Printing inverts parsing exactly on the strings without a superfluous leading zero. */
  lemma CanonicalDigitsDecision(s: string)
    requires s != "" && AllDigits(s)
    ensures Text(Value(s)) == s <==> CanonicalDigits(s)
  {
    if CanonicalDigits(s) {
      TextOfValue(s);
    } else {
      ValueOfNatText(Value(s));
    }
  }

  function Zeros(n: nat): (s: string)
    ensures |s| == n && AllDigits(s)
  {
    seq(n, _ => '0')
  }

  /** Any number of leading zeros leaves the value alone. */
  lemma {:induction false} ValueBehindZeros(n: nat, s: string)
    requires AllDigits(s)
    ensures AllDigits(Zeros(n) + s) && Value(Zeros(n) + s) == Value(s)
    decreases n, |s|
  {
    var whole := Zeros(n) + s;
    if n == 0 {
      assert whole == s;
    } else if s == "" {
      assert whole == Zeros(n) && whole[..n - 1] == Zeros(n - 1) + "";
      ValueBehindZeros(n - 1, "");
    } else {
      var k := |s| - 1;
      assert whole[..|whole| - 1] == Zeros(n) + s[..k] && whole[|whole| - 1] == s[k];
      ValueBehindZeros(n, s[..k]);
    }
  }

  // ---------------------------------------------------------------- digits and places

  /** The ten digits denote their positions in the usual order, and print so. */
  lemma DigitsInOrder(d: nat)
    requires d < 10
    ensures var c := "0123456789"[d]; IsDigit(c) && DigitValue(c) == d && DigitChar(d) == c
  {
  }

  function PowerOfTen(n: nat): (p: nat) {
    if n == 0 then 1 else 10 * PowerOfTen(n - 1)
  }

  /** The number written by digits and powers of ten, the most significant digit first. */
  function PlaceValue(s: string): (n: nat)
    requires AllDigits(s)
  {
    if s == "" then 0 else DigitValue(s[0]) * PowerOfTen(|s| - 1) + PlaceValue(s[1..])
  }

  lemma {:induction false} PlaceValueOfAppend(s: string, c: char)
    requires AllDigits(s) && IsDigit(c)
    ensures PlaceValue(s + [c]) == PlaceValue(s) * 10 + DigitValue(c)
  {
    if s == "" {
      assert s + [c] == [c] && PlaceValue([c][1..]) == 0 && PowerOfTen(0) == 1;
    } else {
      assert (s + [c])[0] == s[0] && (s + [c])[1..] == s[1..] + [c];
      PlaceValueOfAppend(s[1..], c);
      Distribute(DigitValue(s[0]), PowerOfTen(|s| - 1));
    }
  }

  lemma Distribute(d: nat, p: nat)
    ensures d * (10 * p) == d * p * 10
  {
  }

  /** What the digit-by-digit parser computes is the number in the place-value notation. */
  lemma {:induction false} ValueIsPlaceValue(s: string)
    requires AllDigits(s)
    ensures Value(s) == PlaceValue(s)
  {
    if s != "" {
      var n := |s| - 1;
      ValueIsPlaceValue(s[..n]);
      PlaceValueOfAppend(s[..n], s[n]);
      assert s == s[..n] + [s[n]];
    }
  }

  predicate DecimalText(s: string, n: nat) {
    AllDigits(s) && CanonicalDigits(s) && Value(s) == n
  }

  /** The printed text is the one canonical digit string of the number, behind a minus sign when it is negative. */
  lemma TextDecision(x: int, s: string)
    ensures s == Text(x) <==>
            if x < 0 then s != "" && s[0] == '-' && DecimalText(s[1..], -x) else DecimalText(s, x)
  {
    var n: nat, digits := if x < 0 then -x else x, if x < 0 && s != "" then s[1..] else s;
    ValueOfNatText(n);
    if AllDigits(digits) && CanonicalDigits(digits) {
      TextOfValue(digits);
    }
    if x < 0 && s != "" && s[0] == '-' {
      assert s == "-" + digits;
    }
    assert Text(x) == if x < 0 then "-" + NatText(n) else NatText(n);
    assert x < 0 ==> Text(x)[1..] == NatText(n);
  }
}
