/** Collecting a list of permissions into runs of the same mapped group. */
module PermissionGroups {
  import opened Counting

  datatype Permission = Permission(id: nat, name: string, code: string)
  datatype GroupName = GroupName(code: string, name: string)
  datatype Group = Group(code: string, name: string, permissions: seq<Permission>)

  /** The group that each permission code is mapped to; a code may have none. */
  type GroupMap = map<string, GroupName>

  /** One step of the reduction: extend the last group or open a new one. */
  function AddTo(groups: seq<Group>, m: GroupMap, perm: Permission): seq<Group> {
    if perm.code !in m then groups
    else
      var g := m[perm.code];
      var last := |groups| - 1;
      if last >= 0 && groups[last].code == g.code then
        groups[last := groups[last].(permissions := groups[last].permissions + [perm])]
      else groups + [Group(g.code, g.name, [perm])]
  }

  function Grouped(m: GroupMap, perms: seq<Permission>): seq<Group> {
    if perms == [] then [] else AddTo(Grouped(m, perms[..|perms| - 1]), m, perms[|perms| - 1])
  }

  method PermissionsByGroups(m: GroupMap, perms: seq<Permission>) returns (groups: seq<Group>)
    ensures groups == Grouped(m, perms)
  {
    groups := [];
    for i := 0 to |perms|
      invariant groups == Grouped(m, perms[..i])
    {
      assert perms[..i + 1][..i] == perms[..i];
      var perm := perms[i];
      if perm.code in m {
        var g := m[perm.code];
        if |groups| == 0 || groups[|groups| - 1].code != g.code {
          groups := groups + [Group(g.code, g.name, [])];
        }
        var last := |groups| - 1;
        groups := groups[last := groups[last].(permissions := groups[last].permissions + [perm])];
        assert [] + [perm] == [perm];
        assert groups == AddTo(Grouped(m, perms[..i]), m, perm);
      }
    }
    assert perms[..|perms|] == perms;
  }

  /** The permissions that are mapped to a group, in order. */
  function Mapped(m: GroupMap, perms: seq<Permission>): (r: seq<Permission>)
    ensures forall p :: p in r ==> p.code in m
  {
    if perms == [] then []
    else
      var before := Mapped(m, perms[..|perms| - 1]);
      if perms[|perms| - 1].code in m then before + [perms[|perms| - 1]] else before
  }

  /** All permissions of the groups, one group after the other. */
  function Flattened(groups: seq<Group>): seq<Permission> {
    if groups == [] then [] else Flattened(groups[..|groups| - 1]) + groups[|groups| - 1].permissions
  }

  /** The group is not empty, holds only permissions mapped to it, and has the name that its first one maps to. */
  ghost predicate OneGroup(m: GroupMap, g: Group) {
    && g.permissions != []
    && (forall p :: p in g.permissions ==> p.code in m && m[p.code].code == g.code)
    && m[g.permissions[0].code].name == g.name
  }

  /** Each is a group, and neighbours differ. */
  ghost predicate WellGrouped(m: GroupMap, groups: seq<Group>) {
    && (forall i :: 0 <= i < |groups| ==> OneGroup(m, groups[i]))
    && (forall i :: 0 < i < |groups| ==> groups[i - 1].code != groups[i].code)
  }

  lemma AddFlattens(groups: seq<Group>, m: GroupMap, perm: Permission)
    requires perm.code in m
    ensures Flattened(AddTo(groups, m, perm)) == Flattened(groups) + [perm]
  {
    var after := AddTo(groups, m, perm);
    var k := |after| - 1;
    assert after[..k] == groups[..k];
    if |after| == |groups| {
      assert after[k].permissions == groups[k].permissions + [perm];
    } else {
      assert groups[..k] == groups;
    }
  }

  lemma AddKeepsWellGrouped(groups: seq<Group>, m: GroupMap, perm: Permission)
    requires WellGrouped(m, groups)
    ensures WellGrouped(m, AddTo(groups, m, perm))
  {
    var after := AddTo(groups, m, perm);
    forall i | 0 <= i < |after| ensures OneGroup(m, after[i]) {
      if i < |groups| { assert OneGroup(m, groups[i]); }
    }
  }

  /** The mapped permissions are all those whose code has a group, once each time they occur, and in order. */
  lemma {:induction false} MappedIsChosen(m: GroupMap, perms: seq<Permission>)
    ensures AreChosen(Mapped(m, perms), perms, (p: Permission) => p.code in m)
  {
    if perms != [] {
      var n := |perms| - 1;
      MappedIsChosen(m, perms[..n]);
      ChosenOfMore(Mapped(m, perms[..n]), perms[..n], perms[n], (p: Permission) => p.code in m);
      assert perms == perms[..n] + [perms[n]];
    }
  }

  /** Every mapped permission is kept once and in order, in a run of its own group. */
  lemma {:induction false} GroupingKeepsPermissions(m: GroupMap, perms: seq<Permission>)
    ensures Flattened(Grouped(m, perms)) == Mapped(m, perms)
    ensures WellGrouped(m, Grouped(m, perms))
  {
    if perms != [] {
      var n := |perms| - 1;
      GroupingKeepsPermissions(m, perms[..n]);
      AddKeepsWellGrouped(Grouped(m, perms[..n]), m, perms[n]);
      if perms[n].code in m { AddFlattens(Grouped(m, perms[..n]), m, perms[n]); }
    }
  }

  /** The groups are the only well-formed ones with these permissions. */
  lemma {:induction false} GroupingIsUnique(m: GroupMap, a: seq<Group>, b: seq<Group>)
    requires WellGrouped(m, a) && WellGrouped(m, b) && Flattened(a) == Flattened(b)
    ensures a == b
  {
    if a == [] || b == [] {
      GroupsShowInFlattened(m, a);
      GroupsShowInFlattened(m, b);
    } else {
      var x, y := a[|a| - 1], b[|b| - 1];
      var fa, fb := Flattened(a[..|a| - 1]), Flattened(b[..|b| - 1]);
      LastsAgree(m, a, b);
      LastsAgree(m, b, a);
      assert x.permissions == y.permissions by {
        assert Flattened(a)[|fa|..] == x.permissions && Flattened(b)[|fb|..] == y.permissions;
      }
      assert fa == fb by {
        assert Flattened(a)[..|fa|] == fa && Flattened(b)[..|fb|] == fb;
      }
      GroupingIsUnique(m, a[..|a| - 1], b[..|b| - 1]);
      assert a == a[..|a| - 1] + [x] && b == b[..|b| - 1] + [y];
    }
  }

  lemma GroupsShowInFlattened(m: GroupMap, groups: seq<Group>)
    requires WellGrouped(m, groups)
    ensures Flattened(groups) == [] <==> groups == []
  {
    if groups != [] { assert OneGroup(m, groups[|groups| - 1]); }
  }

  /** The last run of one grouping is not longer than that of the other. */
  lemma LastsAgree(m: GroupMap, a: seq<Group>, b: seq<Group>)
    requires WellGrouped(m, a) && WellGrouped(m, b) && Flattened(a) == Flattened(b) && a != [] && b != []
    ensures |a[|a| - 1].permissions| <= |b[|b| - 1].permissions|
    ensures a[|a| - 1].code == b[|b| - 1].code
  {
    var s, n := Flattened(a), |Flattened(a)|;
    EndIsLastRun(m, a);
    EndIsLastRun(m, b);
    assert s[n - 1].code in m;
  }

  /** The end of the flattened list belongs to the last group, and what is before that to another one. */
  lemma EndIsLastRun(m: GroupMap, groups: seq<Group>)
    requires WellGrouped(m, groups) && groups != []
    ensures var last, s := groups[|groups| - 1], Flattened(groups);
            var start := |s| - |last.permissions|;
            && 0 <= start < |s|
            && (forall i :: start <= i < |s| ==> s[i].code in m && m[s[i].code].code == last.code)
            && (start > 0 ==> s[start - 1].code in m && m[s[start - 1].code].code != last.code)
  {
    var n := |groups| - 1;
    var last, s, before := groups[n], Flattened(groups), Flattened(groups[..n]);
    assert OneGroup(m, last);
    forall i | |before| <= i < |s| ensures s[i].code in m && m[s[i].code].code == last.code {
      assert s[i] == last.permissions[i - |before|];
    }
    if before != [] {
      var previous := groups[..n][n - 1];
      assert OneGroup(m, previous) && previous.code != last.code;
      assert s[|before| - 1] == before[|before| - 1] == previous.permissions[|previous.permissions| - 1];
    }
  }

  function GroupCodes(m: GroupMap, perms: seq<Permission>): seq<string>
    requires forall p :: p in perms ==> p.code in m
  {
    seq(|perms|, i requires 0 <= i < |perms| => m[perms[i].code].code)
  }

  function Codes(groups: seq<Group>): seq<string> {
    seq(|groups|, i requires 0 <= i < |groups| => groups[i].code)
  }

  ghost predicate Distinct(s: seq<string>) {
    forall i, j :: 0 <= i < j < |s| ==> s[i] != s[j]
  }

  /** Nothing else comes between two equal elements. */
  ghost predicate Contiguous(s: seq<string>) {
    forall i, j, k :: 0 <= i < j < k < |s| && s[i] == s[k] ==> s[j] == s[k]
  }

  /** `gs` are the codes `cs` without immediate repeats. */
  ghost predicate Squeezed(gs: seq<string>, cs: seq<string>) {
    && (forall c :: c in gs <==> c in cs)
    && (|gs| == 0 <==> |cs| == 0)
    && (|gs| > 0 ==> gs[|gs| - 1] == cs[|cs| - 1])
    && (Distinct(gs) <==> Contiguous(cs))
  }

  lemma OneMoreCode(gs: seq<string>, cs: seq<string>, c: string)
    requires Squeezed(gs, cs)
    ensures Squeezed(if |gs| > 0 && gs[|gs| - 1] == c then gs else gs + [c], cs + [c])
  {
    if |gs| > 0 && gs[|gs| - 1] == c { OneMoreOfTheSame(cs, c); } else { OneMoreOther(gs, cs, c); }
  }

  lemma GroupCodesOfOneMore(m: GroupMap, perms: seq<Permission>, perm: Permission)
    requires perm.code in m && forall p :: p in perms ==> p.code in m
    ensures forall p :: p in perms + [perm] ==> p.code in m
    ensures GroupCodes(m, perms + [perm]) == GroupCodes(m, perms) + [m[perm.code].code]
  {
  }

  lemma {:induction false} SqueezedByOneMore(m: GroupMap, groups: seq<Group>, perms: seq<Permission>, perm: Permission)
    requires perm.code in m && forall p :: p in perms ==> p.code in m
    requires Squeezed(Codes(groups), GroupCodes(m, perms))
    ensures forall p :: p in perms + [perm] ==> p.code in m
    ensures Squeezed(Codes(AddTo(groups, m, perm)), GroupCodes(m, perms + [perm]))
  {
    OneMoreCode(Codes(groups), GroupCodes(m, perms), m[perm.code].code);
    CodesOfOneMore(groups, m, perm);
    GroupCodesOfOneMore(m, perms, perm);
  }

  /** The codes of the mapped permissions, and those of the groups made of them. */
  lemma {:induction false} CodesOfGroups(m: GroupMap, perms: seq<Permission>)
    ensures Squeezed(Codes(Grouped(m, perms)), GroupCodes(m, Mapped(m, perms)))
  {
    if perms != [] {
      var n := |perms| - 1;
      CodesOfGroups(m, perms[..n]);
      if perms[n].code in m {
        SqueezedByOneMore(m, Grouped(m, perms[..n]), Mapped(m, perms[..n]), perms[n]);
      }
    }
  }

  lemma CodesOfOneMore(groups: seq<Group>, m: GroupMap, perm: Permission)
    requires perm.code in m
    ensures var gs, c := Codes(groups), m[perm.code].code;
            Codes(AddTo(groups, m, perm)) == if |gs| > 0 && gs[|gs| - 1] == c then gs else gs + [c]
  {
  }

  lemma OneMoreOfTheSame(cs: seq<string>, c: string)
    requires |cs| > 0 && cs[|cs| - 1] == c
    ensures Contiguous(cs + [c]) <==> Contiguous(cs)
  {
    var s, n := cs + [c], |cs|;
    assert forall i :: 0 <= i < n ==> s[i] == cs[i];
    if Contiguous(cs) {
      forall i, j, k | 0 <= i < j < k < |s| && s[i] == s[k] ensures s[j] == s[k] {
        if k == n && j < n - 1 { assert cs[i] == cs[n - 1]; }
      }
    }
    if Contiguous(s) {
      forall i, j, k | 0 <= i < j < k < n && cs[i] == cs[k] ensures cs[j] == cs[k] {
        assert s[j] == s[k];
      }
    }
  }

  lemma OneMoreOther(gs: seq<string>, cs: seq<string>, c: string)
    requires |cs| > 0 ==> cs[|cs| - 1] != c
    requires forall x :: x in gs <==> x in cs
    requires Distinct(gs) <==> Contiguous(cs)
    ensures Distinct(gs + [c]) <==> Contiguous(cs + [c])
  {
    var s, n := cs + [c], |cs|;
    assert forall i :: 0 <= i < n ==> s[i] == cs[i];
    var t := gs + [c];
    if Distinct(t) {
      forall i, j | 0 <= i < j < |gs| ensures gs[i] != gs[j] { assert t[i] != t[j]; }
      forall i | 0 <= i < |gs| ensures gs[i] != c { assert t[i] != t[|gs|]; }
    }
    if Contiguous(s) {
      forall i | 0 <= i < n ensures cs[i] != c {
        assert s[n - 1] != s[n] && s[i] == cs[i];
      }
      forall i, j, k | 0 <= i < j < k < n && cs[i] == cs[k] ensures cs[j] == cs[k] {
        assert s[j] == s[k];
      }
    }
    if Contiguous(cs) && c !in cs {
      forall i, j, k | 0 <= i < j < k < |s| && s[i] == s[k] ensures s[j] == s[k] {
        assert k < n;
      }
    }
  }

  /** No group code comes twice exactly when the mapped permissions of each group stand together in the input. */
  lemma GroupCodesDistinctExactly(m: GroupMap, perms: seq<Permission>)
    ensures Distinct(Codes(Grouped(m, perms))) <==> Contiguous(GroupCodes(m, Mapped(m, perms)))
  {
    CodesOfGroups(m, perms);
  }

  /** The codes are sorted by a rank. */
  ghost predicate RankedBy(cs: seq<string>, rank: map<string, int>) {
    && (forall i :: 0 <= i < |cs| ==> cs[i] in rank)
    && (forall i, j :: 0 <= i < j < |cs| ==> rank[cs[i]] <= rank[cs[j]])
  }

  ghost predicate OneRankForOne(rank: map<string, int>) {
    forall c, d :: c in rank && d in rank && rank[c] == rank[d] ==> c == d
  }

  lemma RankedIsContiguous(cs: seq<string>, rank: map<string, int>)
    requires RankedBy(cs, rank) && OneRankForOne(rank)
    ensures Contiguous(cs)
  {
  }

  /**
   * An input whose mapped permissions are sorted by a rank of their groups, one rank for one group, gives
   * distinct codes.
   */
  lemma SortedInputGivesDistinctCodes(m: GroupMap, perms: seq<Permission>, rank: map<string, int>)
    requires RankedBy(GroupCodes(m, Mapped(m, perms)), rank) && OneRankForOne(rank)
    ensures Distinct(Codes(Grouped(m, perms)))
  {
    RankedIsContiguous(GroupCodes(m, Mapped(m, perms)), rank);
    GroupCodesDistinctExactly(m, perms);
  }
}
