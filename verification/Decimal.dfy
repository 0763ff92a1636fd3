/** Decimal numerals: `std::to_string` on one side, `std::stoi` and `strtoull` on the other. */
module Decimal {
  import opened ByteStrings

  const DIGIT_ZERO: byte := 0x30
  const PLUS: byte := 0x2B
  const MINUS: byte := 0x2D
  const INT_MAX := 0x7FFF_FFFF

  predicate IsDigit(c: byte) {
    0x30 <= c <= 0x39
  }

  predicate AllDigits(s: Bytes) {
    forall i | 0 <= i < |s| :: IsDigit(s[i])
  }

  /** `std::to_string` of a number that is not negative. */
  function ToDecimal(n: nat): (s: Bytes)
    ensures s != [] && AllDigits(s)
  {
    if n < 10 then [DIGIT_ZERO + n] else ToDecimal(n / 10) + [DIGIT_ZERO + n % 10]
  }

  function Value(digits: Bytes): nat
    requires AllDigits(digits)
  {
    if digits == [] then 0
    else Value(digits[..|digits| - 1]) * 10 + (digits[|digits| - 1] - DIGIT_ZERO)
  }

  lemma {:induction false} ValueToDecimal(n: nat)
    ensures Value(ToDecimal(n)) == n
    ensures ToDecimal(n)[0] == DIGIT_ZERO <==> n == 0
    ensures n == 0 ==> ToDecimal(n) == [DIGIT_ZERO]
  {
    var s := ToDecimal(n);
    if n < 10 {
      assert s[..0] == [];
    } else {
      ValueToDecimal(n / 10);
      assert s[..|s| - 1] == ToDecimal(n / 10);
    }
  }

  /** `isspace` in the C locale. */
  predicate IsSpace(c: byte) {
    c == 0x20 || 0x09 <= c <= 0x0D
  }

  function SkipSpace(s: Bytes): Bytes {
    if s != [] && IsSpace(s[0]) then SkipSpace(s[1..]) else s
  }

  function DigitCount(s: Bytes): (n: nat)
    ensures n <= |s| && AllDigits(s[..n]) && (n < |s| ==> !IsDigit(s[n]))
  {
    if s == [] || !IsDigit(s[0]) then 0
    else
      var n := 1 + DigitCount(s[1..]);
      assert s[..n] == [s[0]] + s[1..][..n - 1];
      n
  }

  lemma DigitCountAll(s: Bytes, n: nat)
    requires n <= |s| && AllDigits(s[..n]) && (n < |s| ==> !IsDigit(s[n]))
    ensures DigitCount(s) == n
  {
    var m := DigitCount(s);
    assert forall i | 0 <= i < n :: s[..n][i] == s[i];
    assert forall i | 0 <= i < m :: s[..m][i] == s[i];
  }

  /** The outcome of `std::stoi`: std::invalid_argument, std::out_of_range or a number. */
  datatype StoiResult = NotANumber | TooLarge | Number(value: int)

  /** `std::stoi`: leading blanks, an optional sign, digits; what follows the digits is ignored. */
  function Stoi(s: Bytes): StoiResult {
    var t := SkipSpace(s);
    var negative := t != [] && t[0] == MINUS;
    var u := if t != [] && (t[0] == MINUS || t[0] == PLUS) then t[1..] else t;
    var n := DigitCount(u);
    if n == 0 then NotANumber
    else
      var v := (if negative then -1 else 1) * Value(u[..n]);
      if -INT_MAX - 1 <= v <= INT_MAX then Number(v) else TooLarge
  }

  /** `stoi(to_string(n)) == n` as far as an `int` reaches, and not one step further. */
  lemma StoiToDecimal(n: nat)
    ensures Stoi(ToDecimal(n)) == if n <= INT_MAX then Number(n) else TooLarge
  {
    var s := ToDecimal(n);
    ValueToDecimal(n);
    assert IsDigit(s[0]);
    assert s[..|s|] == s;
    DigitCountAll(s, |s|);
  }
}
