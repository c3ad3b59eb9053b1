/** Trimming every text inside a JSON value, in place, before it is written to the database. */
module DeepTrim {
  import opened Options

  /** The characters that JavaScript's `trim` takes off: white space and line terminators. */
  predicate IsSpace(c: char) {
    var n := c as int;
    n == 0x20 || 9 <= n <= 13 || n == 0xA0 || n == 0x1680 || 0x2000 <= n <= 0x200A ||
    n == 0x2028 || n == 0x2029 || n == 0x202F || n == 0x205F || n == 0x3000 || n == 0xFEFF
  }

  function TrimStart(s: string): string {
    if s == [] || !IsSpace(s[0]) then s else TrimStart(s[1..])
  }

  function TrimEnd(s: string): string {
    if s == [] || !IsSpace(s[|s| - 1]) then s else TrimEnd(s[..|s| - 1])
  }

  function Trim(s: string): string {
    TrimEnd(TrimStart(s))
  }

  /** A value; null also stands for undefined. Objects and arrays are shared by reference. */
  datatype Json = Null | Bool(b: bool) | Num(n: real) | Text(s: string) | Ref(node: Node)

  /** An object or an array: the values of its keys, in order. */
  class Node {
    const isArray: bool
    var slots: seq<Json>

    constructor (isArray: bool, slots: seq<Json>)
      ensures this.isArray == isArray && this.slots == slots
    {
      this.isArray, this.slots := isArray, slots;
    }
  }

  /** The nodes that each node refers to, slot by slot. */
  type Shape = map<Node, seq<Option<Node>>>

  /** The slots of some nodes at one moment. */
  type Contents = map<Node, seq<Json>>

  ghost function ContentsOf(nodes: set<Node>): Contents
    reads nodes
  {
    map n | n in nodes :: n.slots
  }

  /** The slots refer to the given nodes. */
  ghost predicate Refers(slots: seq<Json>, refs: seq<Option<Node>>) {
    |slots| == |refs| && forall i :: 0 <= i < |refs| ==> refs[i] == if slots[i].Ref? then Some(slots[i].node) else None
  }

  ghost predicate Shaped(g: Shape, h: Contents) {
    h.Keys == g.Keys && forall n :: n in g ==> Refers(h[n], g[n])
  }

  /** The nodes can be ranked so that references lead downwards: there are no cycles, but there may be sharing. */
  ghost predicate Acyclic(g: Shape, rank: map<Node, nat>) {
    && rank.Keys == g.Keys
    && (forall n, i :: n in g && 0 <= i < |g[n]| && g[n][i].Some? ==>
          g[n][i].value in g && rank[g[n][i].value] < rank[n])
  }

  /** A node with all nodes below it. */
  ghost function Below(g: Shape, rank: map<Node, nat>, n: Node): set<Node>
    requires Acyclic(g, rank) && n in g
    decreases rank[n], 1, 0
  {
    {n} + BelowSlots(g, rank, n, |g[n]|)
  }

  /** All nodes below the first i slots of a node. */
  ghost function BelowSlots(g: Shape, rank: map<Node, nat>, n: Node, i: nat): set<Node>
    requires Acyclic(g, rank) && n in g && i <= |g[n]|
    decreases rank[n], 0, i
  {
    if i == 0 then {}
    else BelowSlots(g, rank, n, i - 1) + if g[n][i - 1].Some? then Below(g, rank, g[n][i - 1].value) else {}
  }

  lemma {:induction false} BelowIsLower(g: Shape, rank: map<Node, nat>, n: Node, i: nat)
    requires Acyclic(g, rank) && n in g && i <= |g[n]|
    ensures forall m :: m in BelowSlots(g, rank, n, i) ==> m in g && rank[m] < rank[n]
    ensures forall j :: 0 <= j < i && g[n][j].Some? ==> Below(g, rank, g[n][j].value) <= BelowSlots(g, rank, n, i)
    decreases rank[n], i
  {
    if i > 0 {
      BelowIsLower(g, rank, n, i - 1);
      if g[n][i - 1].Some? {
        var c := g[n][i - 1].value;
        BelowIsLower(g, rank, c, |g[c]|);
      }
    }
  }

  function TrimLeaf(v: Json): Json {
    if v.Text? then Text(Trim(v.s)) else v
  }

  function TrimSlots(slots: seq<Json>): seq<Json> {
    seq(|slots|, i requires 0 <= i < |slots| => TrimLeaf(slots[i]))
  }

  /** The contents with the texts directly in the given nodes trimmed. */
  ghost function Trimmed(h: Contents, nodes: set<Node>): Contents {
    map n | n in h :: if n in nodes then TrimSlots(h[n]) else h[n]
  }

  lemma {:induction false} TrimStartStops(s: string)
    ensures TrimStart(s) == [] || !IsSpace(TrimStart(s)[0])
  {
    if s != [] && IsSpace(s[0]) { TrimStartStops(s[1..]); }
  }

  lemma {:induction false} TrimEndStops(s: string)
    ensures TrimEnd(s) == [] || (!IsSpace(TrimEnd(s)[|TrimEnd(s)| - 1]) && TrimEnd(s)[0] == s[0])
  {
    if s != [] && IsSpace(s[|s| - 1]) { TrimEndStops(s[..|s| - 1]); }
  }

  /** A trimmed text has no space at either end, and trimming it again changes nothing. */
  lemma TrimIsIdempotent(s: string)
    ensures Trim(s) == [] || (!IsSpace(Trim(s)[0]) && !IsSpace(Trim(s)[|Trim(s)| - 1]))
    ensures Trim(Trim(s)) == Trim(s)
  {
    TrimStartStops(s);
    TrimEndStops(TrimStart(s));
  }

  predicate AllSpaces(s: string) {
    forall i :: 0 <= i < |s| ==> IsSpace(s[i])
  }

  /** The part of s from i to j, with nothing but spaces around it and no space at either end. */
  predicate IsCore(s: string, i: nat, j: nat) {
    && i <= j <= |s| && AllSpaces(s[..i]) && AllSpaces(s[j..])
    && (i < j ==> !IsSpace(s[i]) && !IsSpace(s[j - 1]))
  }

  lemma {:induction false} TrimStartCuts(s: string)
    ensures |TrimStart(s)| <= |s|
    ensures var i := |s| - |TrimStart(s)|;
            TrimStart(s) == s[i..] && AllSpaces(s[..i]) && (i < |s| ==> !IsSpace(s[i]))
  {
    if s != [] && IsSpace(s[0]) {
      TrimStartCuts(s[1..]);
      var i := |s| - |TrimStart(s)|;
      assert s[..i] == [s[0]] + s[1..][..i - 1];
    }
  }

  lemma {:induction false} TrimEndCuts(s: string)
    ensures |TrimEnd(s)| <= |s|
    ensures var j := |TrimEnd(s)|;
            TrimEnd(s) == s[..j] && AllSpaces(s[j..]) && (j > 0 ==> !IsSpace(s[j - 1]))
  {
    if s != [] && IsSpace(s[|s| - 1]) {
      var n := |s| - 1;
      TrimEndCuts(s[..n]);
      assert s[|TrimEnd(s)|..] == s[..n][|TrimEnd(s)|..] + [s[n]];
    }
  }

  lemma TrimIsCore(s: string) returns (i: nat, j: nat)
    ensures IsCore(s, i, j) && Trim(s) == s[i..j]
  {
    var t := TrimStart(s);
    TrimStartCuts(s);
    TrimEndCuts(t);
    i := |s| - |t|;
    j := i + |TrimEnd(t)|;
    assert s[j..] == t[|TrimEnd(t)|..];
  }

  /** All cores of a text are the same text; it is empty exactly when there are only spaces. */
  lemma CoresAgree(s: string, i: nat, j: nat, k: nat, l: nat)
    requires IsCore(s, i, j) && IsCore(s, k, l)
    ensures s[i..j] == s[k..l]
    ensures i == j <==> AllSpaces(s)
  {
    if i < j { CoreIsWide(s, k, l, i, j); }
    if k < l { CoreIsWide(s, i, j, k, l); }
    if i == j { assert s == s[..i] + s[i..]; }
  }

  /** No part that begins and ends with another character sticks out of a core. */
  lemma CoreIsWide(s: string, i: nat, j: nat, k: nat, l: nat)
    requires IsCore(s, i, j) && k < l <= |s| && !IsSpace(s[k]) && !IsSpace(s[l - 1])
    ensures i <= k && l <= j
  {
    assert forall x :: 0 <= x < i ==> s[..i][x] == s[x];
    assert forall x :: j <= x < |s| ==> s[j..][x - j] == s[x];
  }

  /** Trimming takes off the spaces at both ends and nothing else: the result is the core, and no other text is. */
  lemma TrimExactly(s: string, t: string)
    ensures t == Trim(s) <==> exists i: nat, j: nat :: IsCore(s, i, j) && t == s[i..j]
    ensures Trim(s) == [] <==> AllSpaces(s)
  {
    var i, j := TrimIsCore(s);
    CoresAgree(s, i, j, i, j);
    if k: nat, l: nat :| IsCore(s, k, l) && t == s[k..l] {
      CoresAgree(s, i, j, k, l);
    }
  }

  lemma TrimSlotsIsIdempotent(slots: seq<Json>)
    ensures TrimSlots(TrimSlots(slots)) == TrimSlots(slots)
  {
    forall i | 0 <= i < |slots| ensures TrimLeaf(TrimLeaf(slots[i])) == TrimLeaf(slots[i]) {
      if slots[i].Text? { TrimIsIdempotent(slots[i].s); }
    }
  }

  /** Trimming some nodes and then others, the same ones possibly again, trims them all. */
  lemma TrimmedTwice(h: Contents, a: set<Node>, b: set<Node>)
    ensures Trimmed(Trimmed(h, a), b) == Trimmed(h, a + b)
  {
    forall n | n in h ensures Trimmed(Trimmed(h, a), b)[n] == Trimmed(h, a + b)[n] {
      TrimSlotsIsIdempotent(h[n]);
    }
  }

  lemma TrimKeepsShape(g: Shape, h: Contents, nodes: set<Node>)
    requires Shaped(g, h)
    ensures Shaped(g, Trimmed(h, nodes))
  {
    forall n | n in g ensures Refers(Trimmed(h, nodes)[n], g[n]) {
      assert Refers(h[n], g[n]);
    }
  }

  /** Trim a value: a text gives a new text, and the texts inside an object or array are replaced in their slots. */
  method TrimDeep(value: Json, ghost g: Shape, ghost rank: map<Node, nat>) returns (r: Json)
    requires Acyclic(g, rank) && Shaped(g, ContentsOf(g.Keys))
    requires value.Ref? ==> value.node in g
    modifies if value.Ref? then Below(g, rank, value.node) else {}
    ensures r == TrimLeaf(value)
    ensures ContentsOf(g.Keys) ==
            Trimmed(old(ContentsOf(g.Keys)), if value.Ref? then Below(g, rank, value.node) else {})
    decreases if value.Ref? then rank[value.node] + 1 else 0, 2
  {
    ghost var h := ContentsOf(g.Keys);
    match value
    case Null => r := value;
    case Bool(_) => r := value;
    case Num(_) => r := value;
    case Text(s) => r := Text(Trim(s));
    case Ref(n) =>
      if n.isArray {
        TrimElements(n, g, rank);
        TrimKeepsShape(g, h, BelowSlots(g, rank, n, |g[n]|));
      }
      TrimKeys(n, g, rank);
      TrimmedTwice(h, BelowSlots(g, rank, n, |g[n]|), Below(g, rank, n));
      assert BelowSlots(g, rank, n, |g[n]|) + Below(g, rank, n) == Below(g, rank, n);
      r := value;
  }

  /** All nodes below one slot. */
  ghost function BelowSlot(g: Shape, rank: map<Node, nat>, n: Node, i: nat): set<Node>
    requires Acyclic(g, rank) && n in g && i < |g[n]|
  {
    if g[n][i].Some? then Below(g, rank, g[n][i].value) else {}
  }

  lemma NextSlot(g: Shape, rank: map<Node, nat>, n: Node, i: nat)
    requires Acyclic(g, rank) && n in g && i < |g[n]|
    ensures BelowSlots(g, rank, n, i + 1) == BelowSlots(g, rank, n, i) + BelowSlot(g, rank, n, i)
    ensures n !in BelowSlot(g, rank, n, i) && n !in BelowSlots(g, rank, n, i)
    ensures BelowSlot(g, rank, n, i) <= BelowSlots(g, rank, n, |g[n]|)
  {
    BelowIsLower(g, rank, n, i + 1);
    BelowIsLower(g, rank, n, |g[n]|);
  }

  lemma SlotIsBelow(g: Shape, rank: map<Node, nat>, n: Node, i: nat)
    requires Acyclic(g, rank) && n in g && i < |g[n]|
    ensures BelowSlot(g, rank, n, i) <= BelowSlots(g, rank, n, |g[n]|) && n !in BelowSlot(g, rank, n, i)
  {
    BelowIsLower(g, rank, n, |g[n]|);
  }

  /** The pass over the elements of an array: what it returns for them is dropped. */
  method TrimElements(n: Node, ghost g: Shape, ghost rank: map<Node, nat>)
    requires Acyclic(g, rank) && Shaped(g, ContentsOf(g.Keys)) && n in g
    modifies BelowSlots(g, rank, n, |g[n]|)
    ensures ContentsOf(g.Keys) == Trimmed(old(ContentsOf(g.Keys)), BelowSlots(g, rank, n, |g[n]|))
    decreases rank[n] + 1, 1
  {
    ghost var h := ContentsOf(g.Keys);
    assert h[n] == n.slots && Refers(h[n], g[n]);
    NothingTrimmed(h);
    for i := 0 to |n.slots|
      invariant ContentsOf(g.Keys) == Trimmed(h, BelowSlots(g, rank, n, i))
    {
      SlotIsBelow(g, rank, n, i);
      TrimElement(n, i, g, rank, h);
    }
  }

  lemma NothingTrimmed(h: Contents)
    ensures Trimmed(h, {}) == h
  {
  }

  method TrimElement(n: Node, i: nat, ghost g: Shape, ghost rank: map<Node, nat>, ghost h: Contents)
    requires Acyclic(g, rank) && Shaped(g, h) && n in g && i < |g[n]|
    requires ContentsOf(g.Keys) == Trimmed(h, BelowSlots(g, rank, n, i))
    modifies BelowSlot(g, rank, n, i)
    ensures ContentsOf(g.Keys) == Trimmed(h, BelowSlots(g, rank, n, i + 1))
    decreases rank[n] + 1, 0
  {
    NextSlot(g, rank, n, i);
    TrimKeepsShape(g, h, BelowSlots(g, rank, n, i));
    TrimmedTwice(h, BelowSlots(g, rank, n, i), BelowSlot(g, rank, n, i));
    assert n.slots == ContentsOf(g.Keys)[n];
    var _ := TrimDeep(n.slots[i], g, rank);
  }

  /** The pass over the keys: each slot gets what is returned for its value. */
  method TrimKeys(n: Node, ghost g: Shape, ghost rank: map<Node, nat>)
    requires Acyclic(g, rank) && Shaped(g, ContentsOf(g.Keys)) && n in g
    modifies Below(g, rank, n)
    ensures ContentsOf(g.Keys) == Trimmed(old(ContentsOf(g.Keys)), Below(g, rank, n))
    decreases rank[n] + 1, 1
  {
    ghost var h, size := ContentsOf(g.Keys), |g[n]|;
    assert h[n] == n.slots;
    HalfEnds(h, {}, n);
    for i := 0 to |n.slots|
      invariant |n.slots| == size
      invariant ContentsOf(g.Keys) == Half(h, BelowSlots(g, rank, n, i), n, i)
    {
      HalfKeepsShape(g, h, BelowSlots(g, rank, n, i), n, i);
      NextSlot(g, rank, n, i);
      HalfStep(h, BelowSlots(g, rank, n, i), BelowSlot(g, rank, n, i), n, i);
      TrimKey(n, i, g, rank, ContentsOf(g.Keys));
    }
    NextSlots(g, rank, n);
    HalfEnds(h, BelowSlots(g, rank, n, size), n);
  }

  method TrimKey(n: Node, i: nat, ghost g: Shape, ghost rank: map<Node, nat>, ghost h: Contents)
    requires Acyclic(g, rank) && h == ContentsOf(g.Keys) && Shaped(g, h) && n in g && i < |h[n]|
    modifies {n} + BelowSlot(g, rank, n, i)
    ensures ContentsOf(g.Keys) == Trimmed(h, BelowSlot(g, rank, n, i))[n := h[n][i := TrimLeaf(h[n][i])]]
    decreases rank[n] + 1, 0
  {
    NextSlot(g, rank, n, i);
    assert h[n] == n.slots;
    var v := TrimDeep(n.slots[i], g, rank);
    SetSlot(g.Keys, n, i, v, Trimmed(h, BelowSlot(g, rank, n, i)));
  }

  method SetSlot(ghost nodes: set<Node>, n: Node, i: nat, v: Json, ghost h: Contents)
    requires h == ContentsOf(nodes) && n in nodes && i < |h[n]|
    modifies n
    ensures ContentsOf(nodes) == h[n := h[n][i := v]]
  {
    assert h[n] == n.slots;
    n.slots := n.slots[i := v];
  }

  /** Contents in the middle of the pass over the keys of n: its first i slots are done, and the nodes below them. */
  ghost function Half(h: Contents, nodes: set<Node>, n: Node, i: nat): Contents
    requires n in h && i <= |h[n]|
  {
    Trimmed(h, nodes)[n := HalfTrimmed(h[n], i)]
  }

  lemma HalfEnds(h: Contents, nodes: set<Node>, n: Node)
    requires n in h && n !in nodes
    ensures Half(h, {}, n, 0) == h
    ensures Half(h, nodes, n, |h[n]|) == Trimmed(h, {n} + nodes)
  {
    assert HalfTrimmed(h[n], 0) == h[n];
    assert HalfTrimmed(h[n], |h[n]|) == TrimSlots(h[n]);
  }

  lemma NextSlots(g: Shape, rank: map<Node, nat>, n: Node)
    requires Acyclic(g, rank) && n in g
    ensures n !in BelowSlots(g, rank, n, |g[n]|)
  {
    BelowIsLower(g, rank, n, |g[n]|);
  }

  function HalfTrimmed(slots: seq<Json>, i: nat): seq<Json>
    requires i <= |slots|
  {
    TrimSlots(slots[..i]) + slots[i..]
  }

  lemma HalfTrimmedRefers(slots: seq<Json>, refs: seq<Option<Node>>, i: nat)
    requires Refers(slots, refs) && i <= |slots|
    ensures Refers(HalfTrimmed(slots, i), refs)
  {
  }

  lemma HalfKeepsShape(g: Shape, h: Contents, nodes: set<Node>, n: Node, i: nat)
    requires Shaped(g, h) && n in h && i <= |h[n]|
    ensures Shaped(g, Half(h, nodes, n, i))
  {
    TrimKeepsShape(g, h, nodes);
    HalfTrimmedRefers(h[n], g[n], i);
  }

  lemma HalfStep(h: Contents, nodes: set<Node>, more: set<Node>, n: Node, i: nat)
    requires n in h && i < |h[n]| && n !in more
    ensures var m := Half(h, nodes, n, i);
            && |m[n]| == |h[n]| && m[n][i] == h[n][i]
            && Trimmed(m, more)[n := m[n][i := TrimLeaf(m[n][i])]] == Half(h, nodes + more, n, i + 1)
  {
    TrimmedTwice(h, nodes, more);
    assert HalfTrimmed(h[n], i)[i := TrimLeaf(h[n][i])] == HalfTrimmed(h[n], i + 1);
    forall m | m in h && m != n
      ensures Trimmed(Half(h, nodes, n, i), more)[m] == Trimmed(h, nodes + more)[m]
    {
      assert Trimmed(Trimmed(h, nodes), more)[m] == Trimmed(h, nodes + more)[m];
    }
  }

  // ----- The tree that a value spells out -----

  datatype Tree = TNull | TBool(b: bool) | TNum(n: real) | TText(s: string) | TNode(isArray: bool, children: seq<Tree>)

  ghost function TreeOf(g: Shape, rank: map<Node, nat>, h: Contents, v: Json): Tree
    requires Acyclic(g, rank) && Shaped(g, h) && (v.Ref? ==> v.node in g)
    decreases if v.Ref? then rank[v.node] + 1 else 0, 0
  {
    match v
    case Null => TNull
    case Bool(b) => TBool(b)
    case Num(n) => TNum(n)
    case Text(s) => TText(s)
    case Ref(n) => TNode(n.isArray, TreesOf(g, rank, h, n, |g[n]|))
  }

  /** The trees of the first i slots. */
  ghost function TreesOf(g: Shape, rank: map<Node, nat>, h: Contents, n: Node, i: nat): seq<Tree>
    requires Acyclic(g, rank) && Shaped(g, h) && n in g && i <= |g[n]|
    decreases rank[n], i
  {
    if i == 0 then []
    else
      assert g[n][i - 1] == if h[n][i - 1].Ref? then Some(h[n][i - 1].node) else None;
      TreesOf(g, rank, h, n, i - 1) + [TreeOf(g, rank, h, h[n][i - 1])]
  }

  /** Trim every text of a tree and keep its shape. */
  function TrimTree(t: Tree): Tree {
    match t
    case TText(s) => TText(Trim(s))
    case TNode(isArray, children) => TNode(isArray, TrimTrees(children))
    case _ => t
  }

  function TrimTrees(ts: seq<Tree>): seq<Tree> {
    if ts == [] then [] else TrimTrees(ts[..|ts| - 1]) + [TrimTree(ts[|ts| - 1])]
  }

  /** The trimmed trees are the trees trimmed one by one. */
  lemma {:induction false} TrimTreesAt(ts: seq<Tree>, i: nat)
    requires i < |ts|
    ensures |TrimTrees(ts)| == |ts| && TrimTrees(ts)[i] == TrimTree(ts[i])
  {
    var n := |ts| - 1;
    if n > 0 { TrimTreesAt(ts[..n], if i < n then i else 0); }
  }

  /** A node's tree has one child for each slot, the tree of that slot's value. */
  lemma {:induction false} TreesOfAt(g: Shape, rank: map<Node, nat>, h: Contents, n: Node, count: nat, i: nat)
    requires Acyclic(g, rank) && Shaped(g, h) && n in g && i < count <= |g[n]|
    ensures i < |h[n]| && (h[n][i].Ref? ==> h[n][i].node in g)
    ensures |TreesOf(g, rank, h, n, count)| == count && TreesOf(g, rank, h, n, count)[i] == TreeOf(g, rank, h, h[n][i])
  {
    assert Refers(h[n], g[n]);
    if count > 1 { TreesOfAt(g, rank, h, n, count - 1, if i < count - 1 then i else 0); }
  }

  lemma {:induction false} TrimTreeIsIdempotent(t: Tree)
    ensures TrimTree(TrimTree(t)) == TrimTree(t)
  {
    match t
    case TText(s) => TrimIsIdempotent(s);
    case TNode(_, children) => TrimTreesIsIdempotent(children);
    case _ =>
  }

  lemma {:induction false} TrimTreesIsIdempotent(ts: seq<Tree>)
    ensures TrimTrees(TrimTrees(ts)) == TrimTrees(ts)
  {
    if ts != [] {
      var n := |ts| - 1;
      TrimTreesIsIdempotent(ts[..n]);
      TrimTreeIsIdempotent(ts[n]);
      assert TrimTrees(ts)[..|TrimTrees(ts)| - 1] == TrimTrees(ts[..n]);
    }
  }

  /** The texts in the slots of the given nodes are those of `h`, trimmed. */
  ghost predicate TrimmedIn(h: Contents, t: Contents, nodes: set<Node>) {
    forall n :: n in nodes ==> n in h && n in t && t[n] == TrimSlots(h[n])
  }

  /** The nodes refer to one another only. */
  ghost predicate Closed(g: Shape, nodes: set<Node>) {
    nodes <= g.Keys && forall n, i :: n in nodes && 0 <= i < |g[n]| && g[n][i].Some? ==> g[n][i].value in nodes
  }

  lemma {:induction false} BelowIsClosed(g: Shape, rank: map<Node, nat>, n: Node, i: nat)
    requires Acyclic(g, rank) && n in g && i <= |g[n]|
    ensures Closed(g, BelowSlots(g, rank, n, i))
    decreases rank[n], i
  {
    BelowIsLower(g, rank, n, i);
    if i > 0 {
      BelowIsClosed(g, rank, n, i - 1);
      if g[n][i - 1].Some? {
        var c := g[n][i - 1].value;
        BelowIsClosed(g, rank, c, |g[c]|);
        WithChildrenIsClosed(g, rank, c);
      }
    }
  }

  lemma {:induction false} WithChildrenIsClosed(g: Shape, rank: map<Node, nat>, n: Node)
    requires Acyclic(g, rank) && n in g && Closed(g, BelowSlots(g, rank, n, |g[n]|))
    ensures Closed(g, Below(g, rank, n))
  {
    BelowIsLower(g, rank, n, |g[n]|);
    forall i | 0 <= i < |g[n]| && g[n][i].Some? ensures g[n][i].value in BelowSlots(g, rank, n, |g[n]|) {
      assert g[n][i].value in Below(g, rank, g[n][i].value);
    }
  }

  /** Trimming the slots of all nodes below a value trims the tree that it spells out. */
  lemma {:induction false} TrimmedSpellsTrimTree(g: Shape, rank: map<Node, nat>, h: Contents, nodes: set<Node>, v: Json)
    requires Acyclic(g, rank) && Shaped(g, h) && Shaped(g, Trimmed(h, nodes)) && (v.Ref? ==> v.node in g)
    requires v.Ref? ==> Below(g, rank, v.node) <= nodes
    ensures TreeOf(g, rank, Trimmed(h, nodes), TrimLeaf(v)) == TrimTree(TreeOf(g, rank, h, v))
  {
    var below := if v.Ref? then Below(g, rank, v.node) else {};
    if v.Ref? {
      BelowIsClosed(g, rank, v.node, |g[v.node]|);
      WithChildrenIsClosed(g, rank, v.node);
    }
    SpellsTrimTree(g, rank, h, Trimmed(h, nodes), below, v);
  }

  lemma {:induction false} SpellsTrimTree(g: Shape, rank: map<Node, nat>, h: Contents, t: Contents, nodes: set<Node>,
                                          v: Json)
    requires Acyclic(g, rank) && Shaped(g, h) && Shaped(g, t) && TrimmedIn(h, t, nodes) && Closed(g, nodes)
    requires v.Ref? ==> v.node in nodes
    ensures TreeOf(g, rank, t, TrimLeaf(v)) == TrimTree(TreeOf(g, rank, h, v))
    decreases if v.Ref? then rank[v.node] + 1 else 0, 0
  {
    if v.Ref? { SpellsTrimTrees(g, rank, h, t, nodes, v.node, |g[v.node]|); }
  }

  lemma TrimTreesOfMore(ts: seq<Tree>, t: Tree)
    ensures TrimTrees(ts + [t]) == TrimTrees(ts) + [TrimTree(t)]
  {
    assert (ts + [t])[..|ts|] == ts;
  }

  lemma {:induction false} SlotsTrimmed(g: Shape, h: Contents, t: Contents, nodes: set<Node>, n: Node, i: nat)
    requires Shaped(g, h) && TrimmedIn(h, t, nodes) && Closed(g, nodes) && n in nodes && i < |g[n]|
    ensures i < |h[n]| && i < |t[n]| && t[n][i] == TrimLeaf(h[n][i])
    ensures h[n][i].Ref? ==> g[n][i].Some? && h[n][i].node == g[n][i].value && h[n][i].node in nodes
  {
    assert Refers(h[n], g[n]);
  }

  lemma {:induction false} SpellsTrimTrees(g: Shape, rank: map<Node, nat>, h: Contents, t: Contents, nodes: set<Node>,
                                          n: Node, i: nat)
    requires Acyclic(g, rank) && Shaped(g, h) && Shaped(g, t) && TrimmedIn(h, t, nodes) && Closed(g, nodes)
    requires n in nodes && i <= |g[n]|
    ensures TreesOf(g, rank, t, n, i) == TrimTrees(TreesOf(g, rank, h, n, i))
    decreases rank[n], i
  {
    if i > 0 {
      SlotsTrimmed(g, h, t, nodes, n, i - 1);
      SpellsTrimTrees(g, rank, h, t, nodes, n, i - 1);
      SpellsTrimTree(g, rank, h, t, nodes, h[n][i - 1]);
      TrimTreesOfMore(TreesOf(g, rank, h, n, i - 1), TreeOf(g, rank, h, h[n][i - 1]));
    }
  }

  /**
   * In place, and although the elements of every array are gone through twice, the value comes to spell out
   * its tree with every text trimmed, and nothing that it does not refer to is changed.
   */
  method TrimDeepTrimsTree(value: Json, ghost g: Shape, ghost rank: map<Node, nat>) returns (r: Json)
    requires Acyclic(g, rank) && Shaped(g, ContentsOf(g.Keys)) && (value.Ref? ==> value.node in g)
    modifies if value.Ref? then Below(g, rank, value.node) else {}
    ensures Shaped(g, ContentsOf(g.Keys))
    ensures (r.Ref? <==> value.Ref?) && (r.Ref? ==> r == value)
    ensures TreeOf(g, rank, ContentsOf(g.Keys), r) == TrimTree(old(TreeOf(g, rank, ContentsOf(g.Keys), value)))
  {
    ghost var h := ContentsOf(g.Keys);
    ghost var nodes: set<Node> := if value.Ref? then Below(g, rank, value.node) else {};
    TrimKeepsShape(g, h, nodes);
    TrimmedSpellsTrimTree(g, rank, h, nodes, value);
    r := TrimDeep(value, g, rank);
  }
}
