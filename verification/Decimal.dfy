/** Decimal numerals as Go prints them with `%d` / `%05d` and reads them back with strconv.Atoi. */
module Decimal {

  const INT64_MAX: int := 0x7FFF_FFFF_FFFF_FFFF

  predicate IsDigit(c: char) { '0' <= c <= '9' }

  predicate AllDigits(s: string) { forall i :: 0 <= i < |s| ==> IsDigit(s[i]) }

  function DigitValue(c: char): nat
    requires IsDigit(c)
  {
    c as int - '0' as int
  }

  function DigitChar(d: nat): char
    requires d < 10
  {
    ('0' as int + d) as char
  }

  /** The number a digit string denotes; this is the left fold `n = n*10 + digit`. */
  function Value(s: string): nat
    requires AllDigits(s)
  {
    if s == "" then 0 else 10 * Value(s[..|s| - 1]) + DigitValue(s[|s| - 1])
  }

  /** `%d` of a non-negative number. */
  function Digits(n: nat): (s: string)
    ensures AllDigits(s) && s != "" && Value(s) == n
    ensures s[0] == '0' ==> s == "0"
  {
    if n < 10 then [DigitChar(n)] else Digits(n / 10) + [DigitChar(n % 10)]
  }

  function Zeros(n: nat): (s: string)
    ensures |s| == n && AllDigits(s)
  {
    seq(n, _ => '0')
  }

  /** `%05d` of a non-negative number. */
  function Padded5(n: nat): (s: string)
    ensures AllDigits(s) && |s| >= 5 && (|s| > 5 ==> s[0] != '0')
  {
    var d := Digits(n);
    if |d| < 5 then Zeros(5 - |d|) + d else d
  }

  datatype ParsedInt = Int(n: int) | NotAnInt

  /** strconv.Atoi on a 64-bit platform. */
  function Atoi(s: string): ParsedInt {
    var negative := s != "" && s[0] == '-';
    var body := if s != "" && (s[0] == '-' || s[0] == '+') then s[1..] else s;
    if body == "" || !AllDigits(body) then NotAnInt
    else if negative then (if Value(body) <= INT64_MAX + 1 then Int(0 - Value(body)) else NotAnInt)
    else if Value(body) <= INT64_MAX then Int(Value(body)) else NotAnInt
  }

  lemma {:induction false} ValueLeadingZeros(zeros: nat, s: string)
    requires AllDigits(s)
    ensures AllDigits(Zeros(zeros) + s) && Value(Zeros(zeros) + s) == Value(s)
    decreases |s|, zeros
  {
    var t := Zeros(zeros) + s;
    if s != "" {
      ValueLeadingZeros(zeros, s[..|s| - 1]);
      assert t[..|t| - 1] == Zeros(zeros) + s[..|s| - 1];
    } else if zeros > 0 {
      assert t[..|t| - 1] == Zeros(zeros - 1) + "";
      ValueLeadingZeros(zeros - 1, "");
    }
  }
}
