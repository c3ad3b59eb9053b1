/** Choosing the elements of a sequence that meet a condition, in order and with repeats. */
module Counting {

  function Count<T>(s: seq<T>, p: T -> bool): nat {
    if s == [] then 0 else Count(s[..|s| - 1], p) + if p(s[|s| - 1]) then 1 else 0
  }

  /** `chosen` has each element that meets the condition, at the place that the ones before it leave to it. */
  ghost predicate AreChosen<T>(chosen: seq<T>, s: seq<T>, p: T -> bool) {
    && |chosen| == Count(s, p)
    && forall i :: 0 <= i < |s| && p(s[i]) ==> Count(s[..i], p) < |chosen| && chosen[Count(s[..i], p)] == s[i]
  }

  lemma {:induction false} CountGrows<T>(s: seq<T>, i: nat, p: T -> bool)
    requires i < |s|
    ensures Count(s[..i + 1], p) == Count(s[..i], p) + if p(s[i]) then 1 else 0
    ensures Count(s[..i], p) + (if p(s[i]) then 1 else 0) <= Count(s, p)
  {
    assert s[..i + 1][..i] == s[..i];
    if i == |s| - 1 {
      assert s[..i + 1] == s;
    } else {
      CountGrows(s[..|s| - 1], i, p);
      assert s[..|s| - 1][..i] == s[..i];
    }
  }

  lemma {:induction false} ChosenOfMore<T>(chosen: seq<T>, s: seq<T>, x: T, p: T -> bool)
    requires AreChosen(chosen, s, p)
    ensures AreChosen(if p(x) then chosen + [x] else chosen, s + [x], p)
  {
    var t := s + [x];
    assert t[..|s|] == s;
    forall i | 0 <= i < |t| && p(t[i])
      ensures Count(t[..i], p) < Count(t, p) && (if p(x) then chosen + [x] else chosen)[Count(t[..i], p)] == t[i]
    {
      if i < |s| { assert t[..i] == s[..i]; }
    }
  }

  /** Each place is taken by one element that meets the condition. */
  lemma {:induction false} EachIsChosen<T>(s: seq<T>, p: T -> bool, n: nat) returns (i: nat)
    requires n < Count(s, p)
    ensures i < |s| && p(s[i]) && Count(s[..i], p) == n
  {
    var last := |s| - 1;
    if n < Count(s[..last], p) {
      i := EachIsChosen(s[..last], p, n);
      assert s[..last][..i] == s[..i];
    } else {
      i := last;
    }
  }

  /** So there is only one choice. */
  lemma {:induction false} ChoiceIsUnique<T>(a: seq<T>, b: seq<T>, s: seq<T>, p: T -> bool)
    requires AreChosen(a, s, p) && AreChosen(b, s, p)
    ensures a == b
  {
    forall n | 0 <= n < |a| ensures a[n] == b[n] {
      var i := EachIsChosen(s, p, n);
    }
  }
}
