/** Printing a rounded number with a space between groups of three digits. */
module PriceFormat {
  import opened Decimal
  import opened EvenRounding
  import opened Options

  function DigitRun(s: string): nat {
    if s == [] || !IsDigit(s[0]) then 0 else 1 + DigitRun(s[1..])
  }

  /** The text goes on with one or more groups of three digits, and then with no digit. */
  ghost predicate GroupsFollow(s: string) {
    exists j: nat :: j >= 1 && 3 * j <= |s| && AllDigits(s[..3 * j]) && (3 * j == |s| || !IsDigit(s[3 * j]))
  }

  /** A space after every digit that groups of three digits follow. */
  function Spaced(s: string): string {
    if s == [] then []
    else
      var run := DigitRun(s[1..]);
      (if IsDigit(s[0]) && run > 0 && run % 3 == 0 then [s[0], ' '] else [s[0]]) + Spaced(s[1..])
  }

  /** Numbers of this magnitude are printed without an exponent, unless they are very small fractions. */
  predicate Plain(x: real) {
    -1000000000000000000000.0 < x < 1000000000000000000000.0
  }

  /** The text of a number. `fraction` is what JavaScript prints behind the point when the number is not an integer. */
  function NumberText(x: real, fraction: string): string
    requires Plain(x)
  {
    if x == x.Floor as real then IntText(x.Floor)
    else if x < 0.0 then "-" + Print((-x).Floor) + "." + fraction
    else Print(x.Floor) + "." + fraction
  }

  /** The position of the first point, or the length if there is none. */
  function FirstPoint(s: string): (k: nat)
    ensures k <= |s|
    ensures k == |s| <==> '.' !in s
  {
    if s == [] || s[0] == '.' then 0 else 1 + FirstPoint(s[1..])
  }

  /** The first two parts of a text that is split at its points; there may be no second one. */
  function SplitAtPoint(s: string): (string, Option<string>) {
    var k := FirstPoint(s);
    if k == |s| then (s, None)
    else
      var rest := s[k + 1..];
      (s[..k], Some(rest[..FirstPoint(rest)]))
  }

  /** `value` is the number that JavaScript reads from the text `number`. */
  function ChunkNumberByClass(number: string, value: real, fraction: string): string
    requires Plain(EvenRound(value, 0))
  {
    if number == [] then "0"
    else
      var (commonInt, restInt) := SplitAtPoint(NumberText(EvenRound(value, 0), fraction));
      Spaced(commonInt) + if restInt.Some? && restInt.value != [] then "," + restInt.value else ""
  }

  lemma {:induction false} RunExactly(s: string)
    ensures DigitRun(s) <= |s| && AllDigits(s[..DigitRun(s)])
    ensures DigitRun(s) < |s| ==> !IsDigit(s[DigitRun(s)])
  {
    if s != [] && IsDigit(s[0]) {
      RunExactly(s[1..]);
      var n := DigitRun(s[1..]);
      assert forall i :: 0 < i <= n ==> s[i] == s[1..][..n][i - 1];
    }
  }

  /**
   * The lookahead of the regular expression is met exactly when the digits that follow are a positive multiple
   * of three.
   */
  lemma LookaheadExactly(s: string)
    ensures GroupsFollow(s) <==> DigitRun(s) > 0 && DigitRun(s) % 3 == 0
  {
    RunExactly(s);
    var n := DigitRun(s);
    if GroupsFollow(s) {
      var j: nat :| j >= 1 && 3 * j <= |s| && AllDigits(s[..3 * j]) && (3 * j == |s| || !IsDigit(s[3 * j]));
      assert forall i :: 0 <= i < 3 * j ==> IsDigit(s[..3 * j][i]) && s[..3 * j][i] == s[i];
      assert forall i :: 0 <= i < n ==> s[..n][i] == s[i];
    }
    if n > 0 && n % 3 == 0 {
      var j := n / 3;
      assert n == 3 * j;
    }
  }

  /** The length of the first group: one to three, so that a multiple of three is left. */
  function FirstGroup(count: nat): (n: nat)
    ensures count > 0 ==> 1 <= n <= 3 && n <= count && (count - n) % 3 == 0
  {
    if count == 0 then 0 else (count - 1) % 3 + 1
  }

  /** The digits cut into groups of three from the right: the reference for the printed form. */
  function InThrees(digits: string): string {
    if |digits| <= 3 then digits
    else
      var n := FirstGroup(|digits|);
      digits[..n] + " " + InThrees(digits[n..])
  }

  /** Counted from the right, every fourth character is a space, and the others are digits. */
  predicate FourthsAreSpaces(s: string) {
    forall i :: 0 <= i < |s| ==> if (|s| - i) % 4 == 0 then s[i] == ' ' else IsDigit(s[i])
  }

  lemma FromRight(n: nat, rest: nat, i: nat)
    requires n <= 3 && rest % 4 == 3 && i <= n
    ensures (n + 1 + rest - i) % 4 == n - i
  {
  }

  lemma {:induction false} GroupInFront(group: string, rest: string)
    requires AllDigits(group) && 1 <= |group| <= 3 && FourthsAreSpaces(rest) && |rest| % 4 == 3
    ensures FourthsAreSpaces(group + " " + rest) && |group + " " + rest| % 4 == |group|
  {
    var all, n := group + " " + rest, |group|;
    FromRight(n, |rest|, 0);
    forall i | 0 <= i < |all| ensures if (|all| - i) % 4 == 0 then all[i] == ' ' else IsDigit(all[i]) {
      if i > n {
        var k := i - n - 1;
        assert all[i] == rest[k] && |all| - i == |rest| - k;
      } else {
        FromRight(n, |rest|, i);
        assert all[i] == if i == n then ' ' else group[i];
      }
    }
  }

  lemma SmallRest(k: nat)
    requires k <= 3
    ensures k % 4 == k
  {
  }

  lemma {:induction false} OneGroupHasNoSpace(digits: string)
    requires AllDigits(digits) && |digits| <= 3
    ensures FourthsAreSpaces(digits) && |digits| % 4 == FirstGroup(|digits|)
  {
    SmallRest(|digits|);
    forall i | 0 <= i < |digits| ensures (|digits| - i) % 4 != 0 && IsDigit(digits[i]) { SmallRest(|digits| - i); }
  }

  lemma FirstOfThrees(count: nat)
    requires count > 0 && count % 3 == 0
    ensures FirstGroup(count) == 3
  {
  }

  /**
   * Every fourth character from the right is a space: all groups but the first have three digits, and the first
   * has one to three.
   */
  lemma {:induction false} EveryFourthIsSpace(digits: string)
    requires AllDigits(digits)
    ensures FourthsAreSpaces(InThrees(digits))
    ensures |InThrees(digits)| % 4 == FirstGroup(|digits|)
  {
    if |digits| > 3 {
      var n := FirstGroup(|digits|);
      FirstOfThrees(|digits| - n);
      EveryFourthIsSpace(digits[n..]);
      GroupInFront(digits[..n], InThrees(digits[n..]));
    } else {
      OneGroupHasNoSpace(digits);
    }
  }

  lemma FirstGroupGrows(count: nat)
    ensures FirstGroup(count + 1) == (if count % 3 == 0 then 1 else FirstGroup(count) + 1)
  {
  }

  lemma CutOnce(group: string, rest: string)
    requires |group + rest| > 3 && FirstGroup(|group + rest|) == |group|
    ensures InThrees(group + rest) == group + " " + InThrees(rest)
  {
    assert (group + rest)[..|group|] == group && (group + rest)[|group|..] == rest;
  }

  lemma {:induction false} LongerFirstGroup(c: char, group: string, rest: string)
    requires |group + rest| > 3 && |group + rest| % 3 != 0 && FirstGroup(|group + rest|) == |group|
    ensures InThrees([c] + (group + rest)) == [c] + InThrees(group + rest)
  {
    FirstGroupGrows(|group + rest|);
    assert [c] + (group + rest) == ([c] + group) + rest;
    CutOnce([c] + group, rest);
    CutOnce(group, rest);
    AppendLeft(c, group, InThrees(rest));
  }

  lemma AppendLeft(c: char, a: string, b: string)
    ensures [c] + a + " " + b == [c] + (a + " " + b)
  {
  }

  lemma {:induction false} NewFirstGroup(c: char, digits: string)
    requires |digits| >= 3 && FirstGroup(|[c] + digits|) == 1
    ensures InThrees([c] + digits) == [c, ' '] + InThrees(digits)
  {
    CutOnce([c], digits);
    assert [c] + " " == [c, ' '];
  }

  lemma {:induction false} InThreesFromLeft(c: char, digits: string)
    ensures InThrees([c] + digits) ==
            (if |digits| > 0 && |digits| % 3 == 0 then [c, ' '] else [c]) + InThrees(digits)
  {
    if |digits| < 3 {
      ShortIsOneGroup(digits);
      ShortIsOneGroup([c] + digits);
    } else {
      FirstGroupGrows(|digits|);
      if |digits| % 3 == 0 {
        NewFirstGroup(c, digits);
      } else {
        var n := FirstGroup(|digits|);
        assert digits == digits[..n] + digits[n..];
        LongerFirstGroup(c, digits[..n], digits[n..]);
      }
    }
  }

  lemma ShortIsOneGroup(digits: string)
    requires |digits| <= 3
    ensures InThrees(digits) == digits
  {
  }

  lemma {:induction false} AllRun(digits: string)
    requires AllDigits(digits)
    ensures DigitRun(digits) == |digits|
  {
    if digits != [] { AllRun(digits[1..]); }
  }

  /** What the regular expression inserts makes groups of three from the right. */
  lemma {:induction false} SpacedIsInThrees(digits: string)
    requires AllDigits(digits)
    ensures Spaced(digits) == InThrees(digits)
  {
    if digits != [] {
      AllRun(digits[1..]);
      SpacedIsInThrees(digits[1..]);
      InThreesFromLeft(digits[0], digits[1..]);
      assert digits == [digits[0]] + digits[1..];
    }
  }

  function WithoutSpaces(s: string): string {
    if s == [] then [] else (if s[0] == ' ' then [] else [s[0]]) + WithoutSpaces(s[1..])
  }

  lemma FirstOut(c: char, rest: string)
    ensures WithoutSpaces([c] + rest) == (if c == ' ' then [] else [c]) + WithoutSpaces(rest)
  {
    assert ([c] + rest)[1..] == rest;
  }

  lemma SpaceOut(c: char, rest: string)
    requires c != ' '
    ensures WithoutSpaces([c, ' '] + rest) == [c] + WithoutSpaces(rest)
  {
    FirstOut(' ', rest);
    FirstOut(c, [' '] + rest);
    assert [c, ' '] + rest == [c] + ([' '] + rest);
  }

  /** Deleting the spaces undoes their insertion. */
  lemma {:induction false} SpacesAreAllThatIsAdded(s: string)
    requires ' ' !in s
    ensures WithoutSpaces(Spaced(s)) == s
  {
    if s != [] {
      SpacesAreAllThatIsAdded(s[1..]);
      FirstOut(s[0], Spaced(s[1..]));
      SpaceOut(s[0], Spaced(s[1..]));
    }
  }

  /** The rounded number is an integer, so nothing follows a decimal point in its text. */
  lemma RoundedIsInteger(value: real)
    ensures EvenRound(value, 0) == EvenRound(value, 0).Floor as real
  {
  }

  /** The rounded number's text has one part only, that of an integer. */
  lemma {:induction false} RoundedHasNoFraction(value: real, fraction: string)
    requires Plain(EvenRound(value, 0))
    ensures SplitAtPoint(NumberText(EvenRound(value, 0), fraction)) == (IntText(EvenRound(value, 0).Floor), None)
  {
    RoundedIsInteger(value);
    IntTextReadsBack(EvenRound(value, 0).Floor);
  }

  function Abs(n: int): nat {
    if n < 0 then -n else n
  }

  lemma {:induction false} SpacedInt(n: int)
    ensures Spaced(IntText(n)) == (if n < 0 then "-" else "") + InThrees(Print(Abs(n)))
    ensures ',' !in Spaced(IntText(n))
  {
    var digits := Print(Abs(n));
    SpacedIsInThrees(digits);
    NoComma(digits);
    if n < 0 { assert IntText(n)[1..] == digits; }
  }

  /** What the text is made of for a number and a text that is not empty: there is no fraction to print. */
  lemma {:induction false} ChunkIsSpacedInt(number: string, value: real, fraction: string)
    requires number != [] && Plain(EvenRound(value, 0))
    ensures ChunkNumberByClass(number, value, fraction) == Spaced(IntText(EvenRound(value, 0).Floor))
  {
    RoundedHasNoFraction(value, fraction);
  }

  /**
   * For a text that is not empty, the output is the sign and the digits of the rounded number cut into
   * groups of three from the right, and no fraction. Deleting the spaces and reading gives the rounded
   * number back.
   */
  lemma {:induction false} ChunkReadsBack(number: string, value: real, fraction: string)
    requires number != [] && Plain(EvenRound(value, 0))
    ensures var out, n := ChunkNumberByClass(number, value, fraction), EvenRound(value, 0).Floor;
            && out == (if n < 0 then "-" else "") + InThrees(Print(Abs(n)))
            && ReadInt(WithoutSpaces(out)) == n && n as real == EvenRound(value, 0)
            && '.' !in WithoutSpaces(out) && ',' !in out
  {
    var n := EvenRound(value, 0).Floor;
    ChunkIsSpacedInt(number, value, fraction);
    RoundedIsInteger(value);
    SpacedInt(n);
    IntTextReadsBack(n);
    SpacesAreAllThatIsAdded(IntText(n));
  }

  /** An empty text counts as zero. */
  lemma NothingIsZero(value: real, fraction: string)
    requires Plain(EvenRound(value, 0))
    ensures ChunkNumberByClass("", value, fraction) == InThrees(Print(0))
  {
  }

  lemma {:induction false} NoComma(digits: string)
    requires AllDigits(digits)
    ensures ',' !in InThrees(digits)
  {
    if |digits| > 3 { NoComma(digits[FirstGroup(|digits|)..]); }
  }
}
