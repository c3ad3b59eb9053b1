/** The difference of two arrays by a key, as what to delete and what to add. */
module ArrayDiff {
  import opened Counting

  function KeysOf<T, R>(values: seq<T>, key: T -> R): seq<R> {
    seq(|values|, i requires 0 <= i < |values| => key(values[i]))
  }

  function AsSet<R(==)>(s: seq<R>): set<R> {
    set r | r in s
  }

  /** The elements that are not in the set, in order and with repeats. */
  function Missing<R(==)>(s: seq<R>, present: set<R>): seq<R> {
    if s == [] then []
    else
      var before := Missing(s[..|s| - 1], present);
      if s[|s| - 1] in present then before else before + [s[|s| - 1]]
  }

  /** What to delete and what to add, by the keys of the old and the new values. */
  function Diff<R(==)>(olds: seq<R>, news: seq<R>): (seq<R>, seq<R>) {
    (Missing(olds, AsSet(news)), Missing(news, AsSet(olds)))
  }

  lemma OneMoreKey<R>(s: seq<R>, i: nat, present: set<R>)
    requires i < |s|
    ensures AsSet(s[..i + 1]) == AsSet(s[..i]) + {s[i]}
    ensures Missing(s[..i + 1], present) == Missing(s[..i], present) + if s[i] in present then [] else [s[i]]
  {
    assert s[..i + 1] == s[..i] + [s[i]] && s[..i + 1][..i] == s[..i];
  }

  method DiffOfArrays<T, R(==)>(oldValues: seq<T>, newValues: seq<T>, key: T -> R)
    returns (valuesToDelete: seq<R>, valuesToAdd: seq<R>)
    ensures (valuesToDelete, valuesToAdd) == Diff(KeysOf(oldValues, key), KeysOf(newValues, key))
  {
    ghost var olds, news := KeysOf(oldValues, key), KeysOf(newValues, key);
    var oldValuesMap: map<R, bool> := map[];
    for i := 0 to |oldValues|
      invariant oldValuesMap.Keys == AsSet(olds[..i])
      invariant forall r :: r in oldValuesMap ==> !oldValuesMap[r]
    {
      OneMoreKey(olds, i, {});
      oldValuesMap := oldValuesMap[key(oldValues[i]) := false];
    }
    assert olds[..|olds|] == olds;

    valuesToAdd := [];
    for i := 0 to |newValues|
      invariant oldValuesMap.Keys == AsSet(olds)
      invariant forall r :: r in oldValuesMap ==> (oldValuesMap[r] <==> r in AsSet(news[..i]))
      invariant valuesToAdd == Missing(news[..i], AsSet(olds))
    {
      var newValue := key(newValues[i]);
      OneMoreKey(news, i, AsSet(olds));
      if newValue in oldValuesMap {
        oldValuesMap := oldValuesMap[newValue := true];
      } else {
        valuesToAdd := valuesToAdd + [newValue];
      }
    }
    assert news[..|news|] == news;

    valuesToDelete := [];
    for i := 0 to |oldValues|
      invariant valuesToDelete == Missing(olds[..i], AsSet(news))
    {
      var oldValue := key(oldValues[i]);
      OneMoreKey(olds, i, AsSet(news));
      if oldValue in oldValuesMap && !oldValuesMap[oldValue] {
        valuesToDelete := valuesToDelete + [oldValue];
      }
    }
  }

  /** Each missing element occurs as often as in the array, and no other element occurs. */
  lemma {:induction false} MissingKeepsRepeats<R>(s: seq<R>, present: set<R>, r: R)
    ensures multiset(Missing(s, present))[r] == if r in present then 0 else multiset(s)[r]
  {
    if s != [] {
      MissingKeepsRepeats(s[..|s| - 1], present, r);
      assert s == s[..|s| - 1] + [s[|s| - 1]];
    }
  }

  /** Order is kept: what is missing from a part comes before what is missing from a later part. */
  lemma {:induction false} MissingKeepsOrder<R>(a: seq<R>, b: seq<R>, present: set<R>)
    ensures Missing(a + b, present) == Missing(a, present) + Missing(b, present)
  {
    if b == [] {
      assert a + b == a;
    } else {
      MissingKeepsOrder(a, b[..|b| - 1], present);
      assert (a + b)[..|a + b| - 1] == a + b[..|b| - 1];
    }
  }

  /** What is missing is each element outside the set, in order and with repeats. */
  lemma {:induction false} MissingIsChosen<R>(s: seq<R>, present: set<R>)
    ensures AreChosen(Missing(s, present), s, r => r !in present)
  {
    if s != [] {
      var n := |s| - 1;
      MissingIsChosen(s[..n], present);
      ChosenOfMore(Missing(s[..n], present), s[..n], s[n], r => r !in present);
      assert s == s[..n] + [s[n]];
    }
  }

  /** Each list has exactly the keys that are absent from the other side, in order and with repeats. */
  lemma {:induction false} DiffIsChosen<R>(olds: seq<R>, news: seq<R>)
    ensures AreChosen(Diff(olds, news).0, olds, r => r !in AsSet(news))
    ensures AreChosen(Diff(olds, news).1, news, r => r !in AsSet(olds))
    ensures forall r :: r in Diff(olds, news).0 <==> r in olds && r !in news
    ensures forall r :: r in Diff(olds, news).1 <==> r in news && r !in olds
  {
    MissingIsChosen(olds, AsSet(news));
    MissingIsChosen(news, AsSet(olds));
    MissingAsSet(olds, AsSet(news));
    MissingAsSet(news, AsSet(olds));
    forall r ensures r in Diff(olds, news).0 <==> r in olds && r !in news {
      assert r in Diff(olds, news).0 <==> r in AsSet(Diff(olds, news).0);
    }
    forall r ensures r in Diff(olds, news).1 <==> r in news && r !in olds {
      assert r in Diff(olds, news).1 <==> r in AsSet(Diff(olds, news).1);
    }
  }

  lemma {:induction false} MissingAsSet<R>(s: seq<R>, present: set<R>)
    ensures AsSet(Missing(s, present)) == AsSet(s) - present
  {
    if s != [] {
      var n := |s| - 1;
      MissingAsSet(s[..n], present);
      assert s == s[..n] + [s[n]];
      assert AsSet(s) == AsSet(s[..n]) + {s[n]};
      assert AsSet(Missing(s[..n], present) + [s[n]]) == AsSet(Missing(s[..n], present)) + {s[n]};
    }
  }

  /** Deleting the first list from the old keys and adding the second gives the new keys. */
  lemma DiffTurnsOldIntoNew<R>(olds: seq<R>, news: seq<R>)
    ensures AsSet(olds) - AsSet(Diff(olds, news).0) + AsSet(Diff(olds, news).1) == AsSet(news)
  {
    MissingAsSet(olds, AsSet(news));
    MissingAsSet(news, AsSet(olds));
  }

  /** Nothing is to be done exactly when the two have the same set of keys. */
  lemma NothingToDoExactly<R>(olds: seq<R>, news: seq<R>)
    ensures Diff(olds, news) == ([], []) <==> AsSet(olds) == AsSet(news)
  {
    MissingAsSet(olds, AsSet(news));
    MissingAsSet(news, AsSet(olds));
    DiffTurnsOldIntoNew(olds, news);
    var (d, a) := Diff(olds, news);
    assert d != [] ==> d[0] in AsSet(d);
    assert a != [] ==> a[0] in AsSet(a);
  }

  /** Exchanging the arguments exchanges the results, so applying the second diff undoes the first. */
  lemma DiffIsUndoneBySwap<R>(olds: seq<R>, news: seq<R>)
    ensures Diff(news, olds) == (Diff(olds, news).1, Diff(olds, news).0)
    ensures AsSet(olds) - AsSet(Diff(olds, news).0) + AsSet(Diff(olds, news).1)
            - AsSet(Diff(news, olds).0) + AsSet(Diff(news, olds).1) == AsSet(olds)
  {
    DiffTurnsOldIntoNew(olds, news);
    DiffTurnsOldIntoNew(news, olds);
  }
}
