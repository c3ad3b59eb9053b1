/** Removing tags: one global replacement of the regular expression <[^>]+> by nothing. */
module TagStripping {

  /** The expression matches s[i..j]: '<', then one or more characters other than '>', then '>'. */
  predicate Matches(s: string, i: nat, j: nat) {
    i + 3 <= j <= |s| && s[i] == '<' && s[j - 1] == '>' && '>' !in s[i + 1..j - 1]
  }

  ghost predicate HasTag(s: string) {
    exists i: nat, j: nat :: Matches(s, i, j)
  }

  /** The position of the first '>', or the length if there is none. */
  function FirstClose(s: string): nat {
    if s == [] || s[0] == '>' then 0 else 1 + FirstClose(s[1..])
  }

  /** The length of the match at the start of s, or 0 if there is none. */
  function MatchLength(s: string): (n: nat)
    ensures n <= |s|
  {
    if s == [] || s[0] != '<' then 0
    else
      var k := FirstClose(s[1..]);
      FirstCloseExactly(s[1..]);
      if 0 < k < |s| - 1 then k + 2 else 0
  }

  lemma {:induction false} FirstCloseExactly(s: string)
    ensures FirstClose(s) <= |s| && '>' !in s[..FirstClose(s)]
    ensures FirstClose(s) < |s| ==> s[FirstClose(s)] == '>'
  {
    if s != [] && s[0] != '>' {
      FirstCloseExactly(s[1..]);
      assert s[..FirstClose(s)] == [s[0]] + s[1..][..FirstClose(s[1..])];
    }
  }

  /** At a position at most one match starts, and it is the one found. */
  lemma MatchExactly(s: string, j: nat)
    ensures Matches(s, 0, j) <==> j > 0 && j == MatchLength(s)
  {
    if s != [] {
      FirstCloseExactly(s[1..]);
      var k := FirstClose(s[1..]);
      if k < |s| - 1 { assert s[1..k + 1] == s[1..][..k]; }
      if Matches(s, 0, j) {
        assert s[1..][j - 2] == '>' && forall x :: 0 <= x < k ==> s[1..][..k][x] == s[1..][x];
        assert forall x :: 0 <= x < j - 2 ==> s[1..j - 1][x] == s[1..][x] && s[1..][x] != '>';
      }
    }
  }

  /** The scan from left to right that drops each match and goes on behind it. */
  function RemoveHTML(s: string): string
    decreases |s|
  {
    if s == [] then []
    else if MatchLength(s) > 0 then RemoveHTML(s[MatchLength(s)..])
    else [s[0]] + RemoveHTML(s[1..])
  }

  lemma {:induction false} KeepsOnlyOwn(s: string, c: char)
    requires c !in s
    ensures c !in RemoveHTML(s)
    decreases |s|
  {
    if s != [] {
      KeepsOnlyOwn(s[if MatchLength(s) > 0 then MatchLength(s) else 1..], c);
    }
  }

  /** Every '<' has a '>' right behind it, or none at all behind it. */
  predicate Harmless(s: string) {
    forall i :: 0 <= i < |s| && s[i] == '<' ==> '>' !in s[i + 1..] || s[i + 1] == '>'
  }

  lemma HarmlessHasNoTag(s: string)
    requires Harmless(s)
    ensures !HasTag(s)
  {
    forall i: nat, j: nat | i + 3 <= j <= |s| && s[i] == '<' && s[j - 1] == '>' ensures !Matches(s, i, j) {
      assert s[i + 1..][j - i - 2] == '>';
      assert s[i + 1] == s[i + 1..j - 1][0];
    }
  }

  lemma {:induction false} OutputIsHarmless(s: string)
    ensures Harmless(RemoveHTML(s))
    decreases |s|
  {
    if s == [] {
    } else if MatchLength(s) > 0 {
      OutputIsHarmless(s[MatchLength(s)..]);
    } else {
      OutputIsHarmless(s[1..]);
      if s[0] == '<' {
        FirstCloseExactly(s[1..]);
        if FirstClose(s[1..]) == |s| - 1 {
          assert s[1..][..|s| - 1] == s[1..];
          KeepsOnlyOwn(s[1..], '>');
        }
      }
      ConsIsHarmless(s[0], RemoveHTML(s[1..]));
    }
  }

  lemma ConsIsHarmless(c: char, rest: string)
    requires Harmless(rest) && (c == '<' ==> '>' !in rest || rest[0] == '>')
    ensures Harmless([c] + rest)
  {
    var s := [c] + rest;
    forall i | 0 <= i < |s| && s[i] == '<' ensures '>' !in s[i + 1..] || s[i + 1] == '>' {
      assert s[i + 1..] == rest[i..];
      if i > 0 { assert s[i] == rest[i - 1] && s[i + 1..] == rest[i - 1 + 1..]; }
    }
  }

  /** One pass leaves nothing that the expression matches. */
  lemma NoTagIsLeft(s: string)
    ensures !HasTag(RemoveHTML(s))
  {
    OutputIsHarmless(s);
    HarmlessHasNoTag(RemoveHTML(s));
  }

  lemma ShiftedMatch(s: string, n: nat, i: nat, j: nat)
    requires n <= |s| && Matches(s[n..], i, j)
    ensures Matches(s, i + n, j + n)
  {
    assert s[i + n + 1..j + n - 1] == s[n..][i + 1..j - 1];
  }

  /** A text is left as it is exactly when it has no tag. */
  lemma {:induction false} UnchangedExactly(s: string)
    ensures RemoveHTML(s) == s <==> !HasTag(s)
    decreases |s|
  {
    if RemoveHTML(s) == s {
      NoTagIsLeft(s);
    }
    if !HasTag(s) && s != [] {
      MatchExactly(s, MatchLength(s));
      if HasTag(s[1..]) {
        var i: nat, j: nat :| Matches(s[1..], i, j);
        ShiftedMatch(s, 1, i, j);
      }
      UnchangedExactly(s[1..]);
    }
  }

  /** A second pass finds nothing more. */
  lemma Idempotent(s: string)
    ensures RemoveHTML(RemoveHTML(s)) == RemoveHTML(s)
  {
    NoTagIsLeft(s);
    UnchangedExactly(RemoveHTML(s));
  }

  /** Position i of s lies in a tag. */
  ghost predicate InTag(s: string, i: nat) {
    exists a: nat, b: nat :: Matches(s, a, b) && a <= i < b
  }

  function Shifted(at: seq<nat>, n: nat): seq<nat> {
    seq(|at|, k requires 0 <= k < |at| => at[k] + n)
  }

  /** The positions whose characters the scan keeps. */
  function KeptAt(s: string): (at: seq<nat>)
    ensures forall k :: 0 <= k < |at| ==> at[k] < |s|
    decreases |s|
  {
    if s == [] then []
    else if MatchLength(s) > 0 then Shifted(KeptAt(s[MatchLength(s)..]), MatchLength(s))
    else [0] + Shifted(KeptAt(s[1..]), 1)
  }

  function CharsAt(s: string, at: seq<nat>): string
    requires forall k :: 0 <= k < |at| ==> at[k] < |s|
  {
    seq(|at|, k requires 0 <= k < |at| => s[at[k]])
  }

  predicate InOrder(at: seq<nat>) {
    forall k, l :: 0 <= k < l < |at| ==> at[k] < at[l]
  }

  lemma {:induction false} KeptInOrder(s: string)
    ensures InOrder(KeptAt(s))
    decreases |s|
  {
    if s != [] {
      KeptInOrder(s[if MatchLength(s) > 0 then MatchLength(s) else 1..]);
    }
  }

  lemma CharsAtShifted(s: string, n: nat, at: seq<nat>)
    requires n <= |s| && forall k :: 0 <= k < |at| ==> at[k] < |s| - n
    ensures CharsAt(s, Shifted(at, n)) == CharsAt(s[n..], at)
  {
  }

  lemma CharsAtFirst(s: string, at: seq<nat>)
    requires s != [] && forall k :: 0 <= k < |at| ==> at[k] < |s|
    ensures CharsAt(s, [0] + at) == [s[0]] + CharsAt(s, at)
  {
  }

  lemma {:induction false} OutputIsKept(s: string)
    ensures RemoveHTML(s) == CharsAt(s, KeptAt(s))
    decreases |s|
  {
    if s != [] {
      var m := if MatchLength(s) > 0 then MatchLength(s) else 1;
      OutputIsKept(s[m..]);
      CharsAtShifted(s, m, KeptAt(s[m..]));
      CharsAtFirst(s, Shifted(KeptAt(s[m..]), m));
    }
  }

  lemma {:induction false} KeptOrInTag(s: string, i: nat)
    requires i < |s|
    ensures i in KeptAt(s) || InTag(s, i)
    decreases |s|
  {
    var m := MatchLength(s);
    if i < m {
      MatchExactly(s, m);
      assert Matches(s, 0, m);
    } else if i > 0 {
      KeptOrInTagLater(s, i, if m > 0 then m else 1);
    }
  }

  /** A position behind the first step of the scan. */
  lemma {:induction false} KeptOrInTagLater(s: string, i: nat, m: nat)
    requires 0 < m <= i < |s| && m == if MatchLength(s) > 0 then MatchLength(s) else 1
    ensures i in KeptAt(s) || InTag(s, i)
    decreases |s|, 0
  {
    KeptOrInTag(s[m..], i - m);
    if InTag(s[m..], i - m) {
      var a: nat, b: nat :| Matches(s[m..], a, b) && a <= i - m < b;
      ShiftedMatch(s, m, a, b);
    } else {
      var at := KeptAt(s[m..]);
      var k :| 0 <= k < |at| && at[k] == i - m;
      assert Shifted(at, m)[k] == i;
    }
  }

  /** Two matches end together or do not overlap. */
  lemma OverlappingMatchesEndTogether(s: string, a: nat, b: nat, c: nat, d: nat)
    requires Matches(s, a, b) && Matches(s, c, d) && a <= c < b
    ensures b == d
  {
    assert c < b - 1;
    assert forall x :: a + 1 <= x < b - 1 ==> s[a + 1..b - 1][x - a - 1] == s[x];
    assert forall x :: c + 1 <= x < d - 1 ==> s[c + 1..d - 1][x - c - 1] == s[x];
    assert s[c + 1..d - 1][0] == s[c + 1];
  }

  lemma MatchInRest(s: string, n: nat, a: nat, b: nat)
    requires n <= a && Matches(s, a, b)
    ensures Matches(s[n..], a - n, b - n)
  {
    assert s[n..][a - n + 1..b - n - 1] == s[a + 1..b - 1];
  }

  /** A match is the one at the start, or ends with it, or lies behind the scan's first step. */
  lemma {:induction false} MatchAtStep(s: string, a: nat, b: nat)
    requires Matches(s, a, b)
    ensures var m := MatchLength(s);
            if m == 0 then a > 0 && Matches(s[1..], a - 1, b - 1)
            else if a < m then b == m
            else Matches(s[m..], a - m, b - m)
  {
    var m := MatchLength(s);
    MatchExactly(s, m);
    MatchExactly(s, b);
    if m == 0 {
      MatchInRest(s, 1, a, b);
    } else if a < m {
      OverlappingMatchesEndTogether(s, 0, m, a, b);
    } else {
      MatchInRest(s, m, a, b);
    }
  }

  lemma KeptBehind(at: seq<nat>, n: nat, i: nat)
    requires i in Shifted(at, n)
    ensures i >= n && i - n in at
  {
    var k :| 0 <= k < |at| && Shifted(at, n)[k] == i;
    assert at[k] == i - n;
  }

  /** What the scan keeps lies in no tag. */
  lemma {:induction false} KeptIsInNoTag(s: string, i: nat)
    requires i in KeptAt(s)
    ensures !InTag(s, i)
    decreases |s|
  {
    var m := MatchLength(s);
    if m > 0 {
      KeptBehind(KeptAt(s[m..]), m, i);
      KeptIsInNoTag(s[m..], i - m);
    } else if i > 0 {
      KeptBehind(KeptAt(s[1..]), 1, i);
      KeptIsInNoTag(s[1..], i - 1);
    }
    NoTagReaches(s, i);
  }

  /** A position behind the scan's first step, or the kept first one, lies in a tag only if it does in the rest. */
  lemma {:induction false} NoTagReaches(s: string, i: nat)
    requires i < |s|
    requires var m := MatchLength(s);
             if m > 0 then m <= i && !InTag(s[m..], i - m) else i == 0 || !InTag(s[1..], i - 1)
    ensures !InTag(s, i)
  {
    if a: nat, b: nat :| Matches(s, a, b) && a <= i < b { MatchAtStep(s, a, b); }
  }

  /** The output is the input at the positions that lie in no tag, in order. */
  lemma OnlyTagsAreDropped(s: string)
    ensures RemoveHTML(s) == CharsAt(s, KeptAt(s)) && InOrder(KeptAt(s))
    ensures forall i: nat :: i in KeptAt(s) <==> i < |s| && !InTag(s, i)
  {
    OutputIsKept(s);
    KeptInOrder(s);
    forall i: nat ensures i in KeptAt(s) <==> i < |s| && !InTag(s, i) {
      if i in KeptAt(s) {
        KeptIsInNoTag(s, i);
      } else if i < |s| {
        KeptOrInTag(s, i);
      }
    }
  }
}
