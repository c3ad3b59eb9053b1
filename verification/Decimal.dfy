/** Decimal text of natural numbers, as JavaScript and Redis print and read it. */
module Decimal {

  predicate IsDigit(c: char) {
    '0' <= c <= '9'
  }

  predicate AllDigits(s: string) {
    forall i :: 0 <= i < |s| ==> IsDigit(s[i])
  }

  function Print(n: nat): (s: string)
    ensures AllDigits(s) && s != []
  {
    if n < 10 then ['0' + n as char] else Print(n / 10) + ['0' + (n % 10) as char]
  }

  function Value(s: string): nat
    requires AllDigits(s)
  {
    if s == [] then 0 else 10 * Value(s[..|s| - 1]) + (s[|s| - 1] - '0') as int
  }

  /** Reading what was printed gives the number back, and no number but 0 is printed with a leading zero. */
  lemma {:induction false} ReadBack(n: nat)
    ensures Value(Print(n)) == n
    ensures Print(n)[0] == '0' <==> n == 0
  {
    if n >= 10 {
      ReadBack(n / 10);
      assert Print(n)[..|Print(n)| - 1] == Print(n / 10);
    }
  }

  /** The whole number 10^d. */
  function TenTo(d: nat): (n: int)
    ensures n > 0
  {
    if d == 0 then 1 else 10 * TenTo(d - 1)
  }

  lemma TenTimes(x: int, t: int)
    ensures x * (10 * t) == 10 * (x * t)
  {
  }

  lemma {:induction false} ValueOfMore(s: string, c: char)
    requires AllDigits(s) && IsDigit(c)
    ensures AllDigits(s + [c]) && Value(s + [c]) == 10 * Value(s) + (c as int - '0' as int)
  {
    assert (s + [c])[..|s|] == s;
  }

  /** Texts are read by place: what stands in front of n digits counts 10^n times. */
  lemma {:induction false} ValueByPlace(a: string, b: string)
    requires AllDigits(a) && AllDigits(b)
    ensures AllDigits(a + b) && Value(a + b) == Value(a) * TenTo(|b|) + Value(b)
    ensures |b| == 1 ==> Value(b) == b[0] as int - '0' as int
  {
    if b == [] {
      assert a + b == a;
    } else {
      var n := |b| - 1;
      ValueByPlace(a, b[..n]);
      ValueOfMore(a + b[..n], b[n]);
      ValueOfMore(b[..n], b[n]);
      assert a + b == a + b[..n] + [b[n]] && b == b[..n] + [b[n]];
      TenTimes(Value(a), TenTo(n));
    }
  }

  /** The text of an integer. */
  function IntText(n: int): string {
    if n < 0 then "-" + Print(-n) else Print(n)
  }

  /** The integer that a text of digits with an optional sign stands for. */
  function ReadInt(s: string): int {
    if s != [] && s[0] == '-' then 0 - ReadNat(s[1..]) else ReadNat(s)
  }

  function ReadNat(s: string): int {
    if AllDigits(s) then Value(s) else 0
  }

  lemma OnlyDigits(s: string, c: char)
    requires AllDigits(s) && !IsDigit(c)
    ensures c !in s
  {
  }

  lemma {:induction false} IntTextReadsBack(n: int)
    ensures ReadInt(IntText(n)) == n && ' ' !in IntText(n) && '.' !in IntText(n)
  {
    var digits := Print(if n < 0 then -n else n);
    ReadBack(if n < 0 then -n else n);
    OnlyDigits(digits, ' ');
    OnlyDigits(digits, '.');
    OnlyDigits(digits, '-');
    if n < 0 { assert IntText(n)[1..] == digits; }
  }

  /**
   * The text is what some integer is printed as: digits without leading zeros, after a minus sign if it is
   * negative.
   */
  predicate IsIntText(s: string) {
    s == IntText(ReadInt(s))
  }
}
