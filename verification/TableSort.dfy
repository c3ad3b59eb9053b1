/** The table's stable sort by a column in either direction, and the pages cut from the sorted rows. */
module TableSort {

  datatype Order = Asc | Desc

  /** How a column compares rows: the cell of a row, and the order of the cells. */
  datatype Column<!T, !K> = Column(cell: T -> K, less: (K, K) -> bool)

  ghost predicate TotallyOrdered<T, K(!new)>(c: Column<T, K>) {
    && (forall a :: !c.less(a, a))
    && (forall a, b :: a == b || c.less(a, b) || c.less(b, a))
    && (forall a, b, d :: c.less(a, b) && c.less(b, d) ==> c.less(a, d))
  }

  function DescendingComparator<T, K>(c: Column<T, K>, a: T, b: T): int {
    if c.less(c.cell(b), c.cell(a)) then -1
    else if c.less(c.cell(a), c.cell(b)) then 1
    else 0
  }

  function Comparator<T, K>(c: Column<T, K>, order: Order, a: T, b: T): int {
    if order == Desc then DescendingComparator(c, a, b) else -DescendingComparator(c, a, b)
  }

  /** The comparator that the sort is given: rows paired with their positions. */
  function Decorated<T, K>(c: Column<T, K>, order: Order, a: (T, nat), b: (T, nat)): int {
    var o := Comparator(c, order, a.0, b.0);
    if o != 0 then o else a.1 - b.1
  }

  /** The row at position i comes before the one at position j. */
  predicate Before<T, K>(c: Column<T, K>, order: Order, rows: seq<T>, i: nat, j: nat)
    requires i < |rows| && j < |rows|
  {
    Decorated(c, order, (rows[i], i), (rows[j], j)) < 0
  }

  /** In both directions the decorated comparator is a strict total order of the positions. */
  lemma DecoratedIsTotal<T, K(!new)>(c: Column<T, K>, order: Order, rows: seq<T>, i: nat, j: nat, k: nat)
    requires TotallyOrdered(c) && i < |rows| && j < |rows| && k < |rows|
    ensures !Before(c, order, rows, i, i)
    ensures i != j ==> (Before(c, order, rows, i, j) <==> !Before(c, order, rows, j, i))
    ensures Before(c, order, rows, i, j) && Before(c, order, rows, j, k) ==> Before(c, order, rows, i, k)
  {
    var x, y, z := c.cell(rows[i]), c.cell(rows[j]), c.cell(rows[k]);
    assert c.less(x, y) && c.less(y, z) ==> c.less(x, z);
    assert c.less(z, y) && c.less(y, x) ==> c.less(z, x);
  }

  /** `p` lists positions in the order that a sort by the decorated comparator puts their rows in. */
  ghost predicate Increasing<T, K>(c: Column<T, K>, order: Order, rows: seq<T>, p: seq<nat>) {
    && (forall i :: 0 <= i < |p| ==> p[i] < |rows|)
    && (forall i, j :: 0 <= i < j < |p| ==> Before(c, order, rows, p[i], p[j]))
  }

  ghost function Positions(p: seq<nat>): set<nat> {
    set i | 0 <= i < |p| :: p[i]
  }

  ghost function AllPositions(n: nat): (all: set<nat>)
    ensures forall i: nat :: i in all <==> i < n
  {
    if n == 0 then {} else AllPositions(n - 1) + {n - 1}
  }

  /** What any correct sort does: it rearranges all positions, and leaves none after one it comes before. */
  ghost predicate IsSort<T, K>(c: Column<T, K>, order: Order, rows: seq<T>, p: seq<nat>) {
    Increasing(c, order, rows, p) && Positions(p) == AllPositions(|rows|)
  }

  function Picked<T>(rows: seq<T>, p: seq<nat>): seq<T>
    requires forall i :: 0 <= i < |p| ==> p[i] < |rows|
  {
    seq(|p|, i requires 0 <= i < |p| => rows[p[i]])
  }

  lemma HeadAndTail(p: seq<nat>)
    requires p != []
    ensures Positions(p) == {p[0]} + Positions(p[1..])
  {
    assert forall i :: 0 < i < |p| ==> p[i] == p[1..][i - 1];
  }

  /** There is only one way to sort, so every correct sort yields the same rows. */
  lemma {:induction false} SortIsUnique<T, K(!new)>(c: Column<T, K>, order: Order, rows: seq<T>, p: seq<nat>,
                                             q: seq<nat>)
    requires TotallyOrdered(c) && Increasing(c, order, rows, p) && Increasing(c, order, rows, q)
    requires Positions(p) == Positions(q)
    ensures p == q
  {
    if p == [] {
      if q != [] { HeadAndTail(q); }
    } else {
      HeadAndTail(p);
      assert p[0] in Positions(q);
      HeadAndTail(q);
      var i :| 0 <= i < |q| && q[i] == p[0];
      var j :| 0 <= j < |p| && p[j] == q[0];
      DecoratedIsTotal(c, order, rows, p[0], q[0], p[0]);
      assert p[0] == q[0];
      assert p[0] !in Positions(p[1..]) && q[0] !in Positions(q[1..]) by {
        DecoratedIsTotal(c, order, rows, p[0], p[0], p[0]);
      }
      SortIsUnique(c, order, rows, p[1..], q[1..]);
    }
  }

  /** Put a position where it belongs. */
  function Insert<T, K>(c: Column<T, K>, order: Order, rows: seq<T>, p: seq<nat>, x: nat): (r: seq<nat>)
    requires x < |rows| && forall i :: 0 <= i < |p| ==> p[i] < |rows|
    ensures forall i :: 0 <= i < |r| ==> r[i] < |rows|
  {
    if p == [] then [x]
    else if Before(c, order, rows, x, p[0]) then [x] + p
    else [p[0]] + Insert(c, order, rows, p[1..], x)
  }

  lemma {:induction false} InsertSorts<T, K(!new)>(c: Column<T, K>, order: Order, rows: seq<T>, p: seq<nat>, x: nat)
    requires TotallyOrdered(c) && Increasing(c, order, rows, p) && x < |rows| && x !in Positions(p)
    ensures Increasing(c, order, rows, Insert(c, order, rows, p, x))
    ensures Positions(Insert(c, order, rows, p, x)) == Positions(p) + {x}
  {
    if p == [] {
      HeadAndTail([x]);
    } else if Before(c, order, rows, x, p[0]) {
      BeforeFirstIsBeforeAll(c, order, rows, p, x);
      ConsIncreases(c, order, rows, x, p);
    } else {
      var rest := Insert(c, order, rows, p[1..], x);
      HeadAndTail(p);
      TailIncreases(c, order, rows, p);
      InsertSorts(c, order, rows, p[1..], x);
      DecoratedIsTotal(c, order, rows, x, p[0], x);
      FirstIsBeforeRest(c, order, rows, p, x, rest);
      ConsIncreases(c, order, rows, p[0], rest);
    }
  }

  lemma BeforeFirstIsBeforeAll<T, K(!new)>(c: Column<T, K>, order: Order, rows: seq<T>, p: seq<nat>, x: nat)
    requires TotallyOrdered(c) && Increasing(c, order, rows, p) && x < |rows|
    requires p != [] && Before(c, order, rows, x, p[0])
    ensures forall j :: 0 <= j < |p| ==> Before(c, order, rows, x, p[j])
  {
    forall j | 0 <= j < |p| ensures Before(c, order, rows, x, p[j]) {
      DecoratedIsTotal(c, order, rows, x, p[0], p[j]);
    }
  }

  lemma TailIncreases<T, K>(c: Column<T, K>, order: Order, rows: seq<T>, p: seq<nat>)
    requires Increasing(c, order, rows, p) && p != []
    ensures Increasing(c, order, rows, p[1..])
    ensures forall k :: k in Positions(p[1..]) ==> k < |rows| && Before(c, order, rows, p[0], k)
  {
  }

  lemma FirstIsBeforeRest<T, K>(c: Column<T, K>, order: Order, rows: seq<T>, p: seq<nat>, x: nat, rest: seq<nat>)
    requires Increasing(c, order, rows, p) && p != [] && x < |rows| && Before(c, order, rows, p[0], x)
    requires Positions(rest) == Positions(p[1..]) + {x}
    ensures forall j :: 0 <= j < |rest| ==> rest[j] < |rows| && Before(c, order, rows, p[0], rest[j])
  {
    TailIncreases(c, order, rows, p);
    forall j | 0 <= j < |rest| ensures rest[j] < |rows| && Before(c, order, rows, p[0], rest[j]) {
      assert rest[j] in Positions(rest);
    }
  }

  lemma ConsIncreases<T, K>(c: Column<T, K>, order: Order, rows: seq<T>, x: nat, p: seq<nat>)
    requires Increasing(c, order, rows, p) && x < |rows| && forall j :: 0 <= j < |p| ==> Before(c, order, rows, x, p[j])
    ensures Increasing(c, order, rows, [x] + p)
    ensures Positions([x] + p) == {x} + Positions(p)
  {
    HeadAndTail([x] + p);
  }

  /** A sort of the first n positions, standing for that of the JavaScript engine. */
  function EngineSort<T, K>(c: Column<T, K>, order: Order, rows: seq<T>, n: nat): (p: seq<nat>)
    requires n <= |rows|
    ensures forall i :: 0 <= i < |p| ==> p[i] < |rows|
  {
    if n == 0 then [] else Insert(c, order, rows, EngineSort(c, order, rows, n - 1), n - 1)
  }

  lemma {:induction false} EngineSorts<T, K(!new)>(c: Column<T, K>, order: Order, rows: seq<T>, n: nat)
    requires TotallyOrdered(c) && n <= |rows|
    ensures Increasing(c, order, rows, EngineSort(c, order, rows, n))
    ensures Positions(EngineSort(c, order, rows, n)) == AllPositions(n)
  {
    if n > 0 {
      EngineSorts(c, order, rows, n - 1);
      InsertSorts(c, order, rows, EngineSort(c, order, rows, n - 1), n - 1);
    }
  }

  /** The rows in the one order that every correct sort by the decorated comparator gives. */
  method StableSort<T, K(!new)>(rows: seq<T>, c: Column<T, K>, order: Order) returns (sorted: seq<T>)
    requires TotallyOrdered(c)
    ensures exists p :: IsSort(c, order, rows, p) && sorted == Picked(rows, p)
    ensures forall p :: IsSort(c, order, rows, p) ==> sorted == Picked(rows, p)
  {
    var stabilizedThis: seq<(T, nat)> := [];
    for i := 0 to |rows|
      invariant |stabilizedThis| == i && forall j :: 0 <= j < i ==> stabilizedThis[j] == (rows[j], j)
    {
      stabilizedThis := stabilizedThis + [(rows[i], i)];
    }
    var p := EngineSort(c, order, rows, |rows|);
    stabilizedThis := seq(|p|, i requires 0 <= i < |p| => stabilizedThis[p[i]]);
    sorted := [];
    for i := 0 to |stabilizedThis|
      invariant |sorted| == i && forall j :: 0 <= j < i ==> sorted[j] == stabilizedThis[j].0
    {
      sorted := sorted + [stabilizedThis[i].0];
    }
    EngineSorts(c, order, rows, |rows|);
    assert sorted == Picked(rows, p);
    forall q | IsSort(c, order, rows, q) ensures sorted == Picked(rows, q) {
      SortIsUnique(c, order, rows, p, q);
    }
  }

  /**
   * A sort is a rearrangement without loss or repetition, in the direction of the order, that keeps the
   * input's order among rows with equal cells; and these three together are a sort.
   */
  lemma SortExactly<T, K(!new)>(c: Column<T, K>, order: Order, rows: seq<T>, p: seq<nat>)
    requires TotallyOrdered(c)
    ensures IsSort(c, order, rows, p) <==>
            && Positions(p) == AllPositions(|rows|)
            && (forall i, j :: 0 <= i < j < |p| ==> p[i] != p[j])
            && (forall i :: 0 <= i < |p| ==> p[i] < |rows|)
            && (forall i, j :: 0 <= i < j < |p| ==>
                  var x, y := c.cell(rows[p[i]]), c.cell(rows[p[j]]);
                  if x == y then p[i] < p[j] else if order == Asc then c.less(x, y) else c.less(y, x))
  {
  }

  lemma {:induction false} SortHasAllRows<T, K(!new)>(c: Column<T, K>, order: Order, rows: seq<T>, p: seq<nat>)
    requires TotallyOrdered(c) && IsSort(c, order, rows, p)
    ensures |p| == |rows|
    ensures multiset(Picked(rows, p)) == multiset(rows)
  {
    EngineSorts(c, order, rows, |rows|);
    SortIsUnique(c, order, rows, p, EngineSort(c, order, rows, |rows|));
    EngineKeepsRows(c, order, rows, |rows|);
    assert rows[..|rows|] == rows;
  }

  /** `p` picks the first n rows, in some order. */
  predicate PicksFirst<T(==)>(rows: seq<T>, p: seq<nat>, n: nat) {
    && (forall i :: 0 <= i < |p| ==> p[i] < |rows|)
    && |p| == n <= |rows| && multiset(Picked(rows, p)) == multiset(rows[..n])
  }

  lemma {:induction false} EngineKeepsRows<T, K>(c: Column<T, K>, order: Order, rows: seq<T>, n: nat)
    requires n <= |rows|
    ensures PicksFirst(rows, EngineSort(c, order, rows, n), n)
  {
    if n == 0 {
      NothingPicked(rows);
    } else {
      EngineKeepsRows(c, order, rows, n - 1);
      InsertKeepsRows(c, order, rows, EngineSort(c, order, rows, n - 1), n - 1);
    }
  }

  lemma NothingPicked<T>(rows: seq<T>)
    ensures PicksFirst(rows, [], 0)
  {
  }

  lemma {:induction false} InsertKeepsRows<T, K>(c: Column<T, K>, order: Order, rows: seq<T>, p: seq<nat>, n: nat)
    requires n < |rows| && PicksFirst(rows, p, n)
    ensures PicksFirst(rows, Insert(c, order, rows, p, n), n + 1)
  {
    InsertAddsRow(c, order, rows, p, n);
    OnePickedMore(rows, Insert(c, order, rows, p, n), p, n);
  }

  lemma OnePickedMore<T>(rows: seq<T>, r: seq<nat>, p: seq<nat>, n: nat)
    requires PicksOneMore(rows, r, p, n) && PicksFirst(rows, p, n)
    ensures PicksFirst(rows, r, n + 1)
  {
    OneMoreRow(rows, n);
  }

  lemma OneMoreRow<T>(rows: seq<T>, n: nat)
    requires n < |rows|
    ensures multiset(rows[..n + 1]) == multiset(rows[..n]) + multiset{rows[n]}
  {
    assert rows[..n + 1] == rows[..n] + [rows[n]];
  }

  /** `r` picks the rows that `p` picks, and the one at x. */
  predicate PicksOneMore<T(==)>(rows: seq<T>, r: seq<nat>, p: seq<nat>, x: nat) {
    && (forall i :: 0 <= i < |r| ==> r[i] < |rows|)
    && (forall i :: 0 <= i < |p| ==> p[i] < |rows|)
    && x < |rows| && |r| == |p| + 1
    && multiset(Picked(rows, r)) == multiset(Picked(rows, p)) + multiset{rows[x]}
  }

  lemma {:induction false} InsertAddsRow<T, K>(c: Column<T, K>, order: Order, rows: seq<T>, p: seq<nat>, x: nat)
    requires x < |rows| && forall i :: 0 <= i < |p| ==> p[i] < |rows|
    ensures PicksOneMore(rows, Insert(c, order, rows, p, x), p, x)
  {
    if p == [] || Before(c, order, rows, x, p[0]) {
      PickedCons(rows, x, p);
      assert p == [] ==> [x] + p == [x];
    } else {
      InsertAddsRow(c, order, rows, p[1..], x);
      OneMoreBehind(rows, p[0], Insert(c, order, rows, p[1..], x), p[1..], x);
      assert p == [p[0]] + p[1..];
    }
  }

  lemma OneMoreBehind<T>(rows: seq<T>, first: nat, r: seq<nat>, p: seq<nat>, x: nat)
    requires first < |rows| && PicksOneMore(rows, r, p, x)
    ensures PicksOneMore(rows, [first] + r, [first] + p, x)
  {
    PickedCons(rows, first, r);
    PickedCons(rows, first, p);
  }

  lemma PickedCons<T>(rows: seq<T>, x: nat, p: seq<nat>)
    requires x < |rows| && forall i :: 0 <= i < |p| ==> p[i] < |rows|
    ensures multiset(Picked(rows, [x] + p)) == multiset(Picked(rows, p)) + multiset{rows[x]}
  {
    assert Picked(rows, [x] + p) == [rows[x]] + Picked(rows, p);
  }

  function Reverse<T>(s: seq<T>): seq<T> {
    seq(|s|, i requires 0 <= i < |s| => s[|s| - 1 - i])
  }

  /** When no two rows have the same cell, sorting downwards gives the reverse of sorting upwards. */
  lemma DescendingIsReverse<T, K(!new)>(c: Column<T, K>, rows: seq<T>, up: seq<nat>, down: seq<nat>)
    requires TotallyOrdered(c) && IsSort(c, Asc, rows, up) && IsSort(c, Desc, rows, down)
    requires forall i, j :: 0 <= i < j < |rows| ==> c.cell(rows[i]) != c.cell(rows[j])
    ensures Picked(rows, down) == Reverse(Picked(rows, up))
  {
    var r := Reverse(up);
    ReverseKeepsPositions(up);
    forall i, j | 0 <= i < j < |r| ensures Before(c, Desc, rows, r[i], r[j]) {
      assert Before(c, Asc, rows, up[|up| - 1 - j], up[|up| - 1 - i]);
      DecoratedIsTotal(c, Asc, rows, r[j], r[j], r[j]);
      UpIsDown(c, rows, r[i], r[j]);
    }
    SortIsUnique(c, Desc, rows, down, r);
  }

  lemma UpIsDown<T, K(!new)>(c: Column<T, K>, rows: seq<T>, i: nat, j: nat)
    requires TotallyOrdered(c) && i < |rows| && j < |rows| && i != j
    requires forall i, j :: 0 <= i < j < |rows| ==> c.cell(rows[i]) != c.cell(rows[j])
    requires Before(c, Asc, rows, j, i)
    ensures Before(c, Desc, rows, i, j)
  {
    assert c.cell(rows[i]) != c.cell(rows[j]) by {
      if i < j { assert c.cell(rows[i]) != c.cell(rows[j]); } else { assert c.cell(rows[j]) != c.cell(rows[i]); }
    }
  }

  lemma ReverseKeepsPositions(p: seq<nat>)
    ensures Positions(Reverse(p)) == Positions(p)
  {
    forall x | x in Positions(p) ensures x in Positions(Reverse(p)) {
      var i :| 0 <= i < |p| && p[i] == x;
      assert Reverse(p)[|p| - 1 - i] == x;
    }
  }

  // ----- Pages -----

  /** `slice` of a JavaScript array, for bounds that are not negative. */
  function Slice<T>(s: seq<T>, start: nat, end: nat): seq<T> {
    var from := if start < |s| then start else |s|;
    var to := if end < |s| then end else |s|;
    if from < to then s[from..to] else []
  }

  function VisibleRows<T>(sorted: seq<T>, page: nat, rowsPerPage: nat): seq<T> {
    Slice(sorted, page * rowsPerPage, page * rowsPerPage + rowsPerPage)
  }

  function EmptyRows(count: nat, page: nat, rowsPerPage: nat): int {
    if page > 0 then
      var missing := (1 + page) * rowsPerPage - count;
      if missing > 0 then missing else 0
    else 0
  }

  /** The first n pages, one after the other. */
  function FirstPages<T>(sorted: seq<T>, n: nat, rowsPerPage: nat): seq<T> {
    if n == 0 then [] else FirstPages(sorted, n - 1, rowsPerPage) + VisibleRows(sorted, n - 1, rowsPerPage)
  }

  /** The pages put together are the sorted rows, each row on exactly one page. */
  lemma {:induction false} PagesCoverRows<T>(sorted: seq<T>, n: nat, rowsPerPage: nat)
    ensures FirstPages(sorted, n, rowsPerPage) == Slice(sorted, 0, n * rowsPerPage)
    ensures n * rowsPerPage >= |sorted| ==> FirstPages(sorted, n, rowsPerPage) == sorted
  {
    if n > 0 {
      PagesCoverRows(sorted, n - 1, rowsPerPage);
      SlicesMeet(sorted, (n - 1) * rowsPerPage, rowsPerPage);
      assert n * rowsPerPage == (n - 1) * rowsPerPage + rowsPerPage;
    }
  }

  lemma SlicesMeet<T>(s: seq<T>, start: nat, size: nat)
    ensures Slice(s, 0, start) + Slice(s, start, start + size) == Slice(s, 0, start + size)
  {
  }

  /** After the first page, the visible and the empty rows fill a page exactly when the page is not beyond the rows. */
  lemma PageIsFilledExactly<T>(sorted: seq<T>, page: nat, rowsPerPage: nat)
    requires page > 0
    ensures |VisibleRows(sorted, page, rowsPerPage)| + EmptyRows(|sorted|, page, rowsPerPage) == rowsPerPage <==>
            page * rowsPerPage <= |sorted|
  {
    assert (1 + page) * rowsPerPage == page * rowsPerPage + rowsPerPage;
  }

  /** A page shows all its rows while there are enough, the rest on the last page, and nothing beyond. */
  lemma VisibleExactly<T>(sorted: seq<T>, page: nat, rowsPerPage: nat)
    ensures var start, visible := page * rowsPerPage, VisibleRows(sorted, page, rowsPerPage);
            && |visible| == (if start + rowsPerPage <= |sorted| then rowsPerPage
                             else if start <= |sorted| then |sorted| - start
                             else 0)
            && forall i :: 0 <= i < |visible| ==> start + i < |sorted| && visible[i] == sorted[start + i]
  {
  }

  /**
   * The empty rows: none on the first page, what is missing to a full page up to the end of the rows, and beyond
   * it all that is missing since the end.
   */
  lemma EmptyRowsExactly<T>(sorted: seq<T>, page: nat, rowsPerPage: nat)
    ensures var visible, empty := |VisibleRows(sorted, page, rowsPerPage)|, EmptyRows(|sorted|, page, rowsPerPage);
            if page == 0 then empty == 0
            else if page * rowsPerPage <= |sorted| then empty == rowsPerPage - visible
            else empty == rowsPerPage + (page * rowsPerPage - |sorted|)
  {
    assert (1 + page) * rowsPerPage == page * rowsPerPage + rowsPerPage;
  }
}
