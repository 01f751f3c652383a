// Sorting a table by a column: the comparison, the stable sort, and the click cycle.
module ColumnSort {
  import opened Collections
  import opened DataTable

  // The comparison of two rows by a column's keys. `collate` is the platform's text comparison.

  function KeyOf(r: Row, column: nat): Key {
    if column < |r.keys| then r.keys[column] else Key(None, false, "", false)
  }

  function Sign(x: real): int { if x < 0.0 then -1 else if x > 0.0 then 1 else 0 }

  /** The two cells compare as numbers: by explicit sort keys, or both as text with a number in it. */
  predicate AsNumbers(a: Key, b: Key) {
    a.n.Some? && b.n.Some? && ((a.sortKey && b.sortKey) || (a.hasDigit && b.hasDigit))
  }

  function CompareKeys(a: Key, b: Key, collate: (string, string) -> int): int {
    if AsNumbers(a, b) then Sign(a.n.value - b.n.value) else collate(a.text, b.text)
  }

  /** A row without the cell compares as one with an empty text. */
  lemma MissingCellIsBlank(r: Row, other: Row, column: nat, collate: (string, string) -> int)
    requires column >= |r.keys|
    ensures CompareKeys(KeyOf(r, column), KeyOf(other, column), collate) == collate("", KeyOf(other, column).text)
    ensures CompareKeys(KeyOf(other, column), KeyOf(r, column), collate) == collate(KeyOf(other, column).text, "")
  {
  }

  datatype Direction = Asc | Desc

  type Order = (Row, Row) -> int

  function ColumnOrder(column: nat, dir: Direction, collate: (string, string) -> int): Order {
    (a: Row, b: Row) =>
      var c := CompareKeys(KeyOf(a, column), KeyOf(b, column), collate);
      if dir.Asc? then c else -c
  }

  // The sort: each row goes in behind every earlier row that does not come after it.

  function Insert(sorted: seq<Row>, r: Row, cmp: Order): seq<Row> {
    if sorted == [] || cmp(sorted[|sorted| - 1], r) <= 0 then sorted + [r]
    else Insert(sorted[..|sorted| - 1], r, cmp) + [sorted[|sorted| - 1]]
  }

  function Sort(rows: seq<Row>, cmp: Order): seq<Row> {
    if rows == [] then [] else Insert(Sort(rows[..|rows| - 1], cmp), rows[|rows| - 1], cmp)
  }

  lemma {:induction false} InsertKeepsRows(sorted: seq<Row>, r: Row, cmp: Order)
    ensures multiset(Insert(sorted, r, cmp)) == multiset(sorted) + multiset{r}
  {
    if !(sorted == [] || cmp(sorted[|sorted| - 1], r) <= 0) {
      InsertKeepsRows(sorted[..|sorted| - 1], r, cmp);
      assert sorted == sorted[..|sorted| - 1] + [sorted[|sorted| - 1]];
    }
  }

  /** Whatever the comparison, sorting only reorders. */
  lemma {:induction false} SortKeepsRows(rows: seq<Row>, cmp: Order)
    ensures multiset(Sort(rows, cmp)) == multiset(rows)
  {
    if rows != [] {
      SortKeepsRows(rows[..|rows| - 1], cmp);
      InsertKeepsRows(Sort(rows[..|rows| - 1], cmp), rows[|rows| - 1], cmp);
      assert rows == rows[..|rows| - 1] + [rows[|rows| - 1]];
    }
  }

  // A consistent comparison ranks the rows.

  ghost predicate Ranks(cmp: Order, rank: Row -> real, rows: seq<Row>) {
    forall a, b | a in rows && b in rows :: Sign(rank(a) - rank(b)) == Sign(cmp(a, b) as real)
  }

  predicate Sorted(rows: seq<Row>, rank: Row -> real) {
    forall i, j | 0 <= i <= j < |rows| :: rank(rows[i]) <= rank(rows[j])
  }

  /** The rows of one rank, in their order. */
  function Class(rows: seq<Row>, rank: Row -> real, x: real): seq<Row> {
    if rows == [] then []
    else
      var rest, r := Class(rows[..|rows| - 1], rank, x), rows[|rows| - 1];
      if rank(r) == x then rest + [r] else rest
  }

  lemma ClassSnoc(rows: seq<Row>, r: Row, rank: Row -> real, x: real)
    ensures Class(rows + [r], rank, x) == if rank(r) == x then Class(rows, rank, x) + [r] else Class(rows, rank, x)
  {
    assert (rows + [r])[..|rows|] == rows;
  }

  /** Rows that compare equal keep their order. */
  ghost predicate StableTo(before: seq<Row>, after: seq<Row>, rank: Row -> real) {
    forall x :: Class(after, rank, x) == Class(before, rank, x)
  }

  lemma InsertSnoc(rest: seq<Row>, last: Row, r: Row, cmp: Order)
    ensures Insert(rest + [last], r, cmp) ==
            if cmp(last, r) <= 0 then rest + [last] + [r] else Insert(rest, r, cmp) + [last]
  {
    assert (rest + [last])[..|rest|] == rest;
  }

  lemma {:induction false} InsertSorts(sorted: seq<Row>, r: Row, cmp: Order, rank: Row -> real)
    requires Ranks(cmp, rank, sorted + [r]) && Sorted(sorted, rank)
    ensures Sorted(Insert(sorted, r, cmp), rank)
  {
    hide Insert, Sorted;
    if sorted == [] {
      OneInserted(r, cmp);
      SortedSnoc([], r, rank);
    } else {
      var rest, last := sorted[..|sorted| - 1], sorted[|sorted| - 1];
      assert sorted == rest + [last];
      InsertSnoc(rest, last, r, cmp);
      SortedSnoc(rest, last, rank);
      assert last in sorted + [r] && r in sorted + [r];
      if cmp(last, r) > 0 {
        assert forall a | a in rest + [r] :: a in sorted + [r];
        InsertSorts(rest, r, cmp, rank);
        InsertKeepsRows(rest, r, cmp);
        BoundedBy(Insert(rest, r, cmp), rest, r, last, rank);
        SortedSnoc(Insert(rest, r, cmp), last, rank);
      } else {
        SortedSnoc(sorted, r, rank);
      }
    }
  }

  lemma SortedSnoc(rows: seq<Row>, r: Row, rank: Row -> real)
    ensures Sorted(rows + [r], rank) <==> Sorted(rows, rank) && forall i | 0 <= i < |rows| :: rank(rows[i]) <= rank(r)
    ensures rows != [] && Sorted(rows, rank) && rank(rows[|rows| - 1]) <= rank(r) ==> Sorted(rows + [r], rank)
    ensures Sorted([], rank)
  {
    if Sorted(rows + [r], rank) {
      forall i, j | 0 <= i <= j < |rows|
        ensures rank(rows[i]) <= rank(rows[j])
      {
        assert (rows + [r])[i] == rows[i] && (rows + [r])[j] == rows[j];
      }
      forall i | 0 <= i < |rows|
        ensures rank(rows[i]) <= rank(r)
      {
        assert (rows + [r])[i] == rows[i] && (rows + [r])[|rows|] == r;
      }
    }
  }

  lemma BoundedBy(ins: seq<Row>, rest: seq<Row>, r: Row, last: Row, rank: Row -> real)
    requires multiset(ins) == multiset(rest) + multiset{r} && rank(r) <= rank(last)
    requires forall i | 0 <= i < |rest| :: rank(rest[i]) <= rank(last)
    ensures forall i | 0 <= i < |ins| :: rank(ins[i]) <= rank(last)
  {
    forall i | 0 <= i < |ins|
      ensures rank(ins[i]) <= rank(last)
    {
      assert ins[i] in multiset(ins);
    }
  }

  lemma {:induction false} InsertKeepsClass(sorted: seq<Row>, r: Row, cmp: Order, rank: Row -> real, x: real)
    requires Ranks(cmp, rank, sorted + [r])
    ensures Class(Insert(sorted, r, cmp), rank, x) == Class(sorted + [r], rank, x)
  {
    hide Class, Insert;
    if sorted == [] {
      OneInserted(r, cmp);
    } else {
      var rest, last := sorted[..|sorted| - 1], sorted[|sorted| - 1];
      assert sorted == rest + [last];
      assert last in sorted + [r] && r in sorted + [r];
      InsertSnoc(rest, last, r, cmp);
      if cmp(last, r) > 0 {
        assert forall a | a in rest + [r] :: a in sorted + [r];
        InsertKeepsClass(rest, r, cmp, rank, x);
        ClassSnoc(Insert(rest, r, cmp), last, rank, x);
        ClassSnoc(rest, r, rank, x);
        ClassSnoc(rest, last, rank, x);
        ClassSnoc(sorted, r, rank, x);
      }
    }
  }

  lemma OneInserted(r: Row, cmp: Order)
    ensures Insert([], r, cmp) == [] + [r]
  {
  }

  /** Under a consistent comparison the result is in order, and rows that compare equal keep theirs. */
  lemma {:induction false} SortSorts(rows: seq<Row>, cmp: Order, rank: Row -> real)
    requires Ranks(cmp, rank, rows)
    ensures Sorted(Sort(rows, cmp), rank) && StableTo(rows, Sort(rows, cmp), rank)
  {
    if rows != [] {
      var rest, r := rows[..|rows| - 1], rows[|rows| - 1];
      assert rows == rest + [r];
      SortSorts(rest, cmp, rank);
      SortKeepsRows(rest, cmp);
      forall a | a in Sort(rest, cmp) + [r]
        ensures a in rows
      {
        if a != r { assert a in multiset(Sort(rest, cmp)); }
      }
      InsertSorts(Sort(rest, cmp), r, cmp, rank);
      forall x
        ensures Class(Sort(rows, cmp), rank, x) == Class(rows, rank, x)
      {
        InsertKeepsClass(Sort(rest, cmp), r, cmp, rank, x);
        ClassSnoc(Sort(rest, cmp), r, rank, x);
        ClassSnoc(rest, r, rank, x);
      }
    }
  }

  lemma SameLast(a: seq<Row>, x: Row, b: seq<Row>, y: Row, rank: Row -> real)
    requires Sorted(a + [x], rank) && Sorted(b + [y], rank) && multiset(a + [x]) == multiset(b + [y])
    requires forall z :: Class(a + [x], rank, z) == Class(b + [y], rank, z)
    ensures x == y && forall z :: Class(a, rank, z) == Class(b, rank, z)
  {
    hide Class;
    HighestRank(a, x, b, y, rank);
    HighestRank(b, y, a, x, rank);
    forall z
      ensures Class(a, rank, z) == Class(b, rank, z) && (z == rank(x) ==> x == y)
    {
      ClassSnoc(a, x, rank, z);
      ClassSnoc(b, y, rank, z);
      if rank(x) == z { SnocInjective(Class(a, rank, z), x, Class(b, rank, z), y); }
    }
    assert Class(a, rank, rank(x)) == Class(b, rank, rank(x));
  }

  lemma HighestRank(a: seq<Row>, x: Row, b: seq<Row>, y: Row, rank: Row -> real)
    requires Sorted(a + [x], rank) && multiset(a + [x]) == multiset(b + [y])
    ensures rank(y) <= rank(x)
  {
    assert (b + [y])[|b|] in multiset(a + [x]);
    var i :| 0 <= i < |a + [x]| && (a + [x])[i] == y;
    assert (a + [x])[|a|] == x;
  }

  lemma SnocInjective(a: seq<Row>, x: Row, b: seq<Row>, y: Row)
    requires a + [x] == b + [y]
    ensures a == b && x == y
  {
    assert (a + [x])[..|a|] == a && (b + [y])[..|b|] == b;
    assert |a + [x]| == |b + [y]|;
    assert (a + [x])[|a|] == x && (b + [y])[|b|] == y;
  }

  /** Order and stability leave one possible result, so any stable sort gives the same table. */
  lemma {:induction false} StableSortIsUnique(a: seq<Row>, b: seq<Row>, rank: Row -> real)
    requires Sorted(a, rank) && Sorted(b, rank) && multiset(a) == multiset(b)
    requires forall x :: Class(a, rank, x) == Class(b, rank, x)
    ensures a == b
  {
    hide Class, Sorted;
    assert |a| == |multiset(a)| == |multiset(b)| == |b|;
    if a != [] {
      var a', x, b', y := a[..|a| - 1], a[|a| - 1], b[..|b| - 1], b[|b| - 1];
      assert a == a' + [x] && b == b' + [y];
      SortedSnoc(a', x, rank);
      SortedSnoc(b', y, rank);
      SameLast(a', x, b', y, rank);
      MultisetCancel(a', b', x);
      StableSortIsUnique(a', b', rank);
    }
  }

  lemma MultisetCancel(a: seq<Row>, b: seq<Row>, x: Row)
    requires multiset(a + [x]) == multiset(b + [x])
    ensures multiset(a) == multiset(b)
  {
    forall r
      ensures multiset(a)[r] == multiset(b)[r]
    {
      assert multiset(a + [x])[r] == multiset(b + [x])[r];
    }
  }

  // A column of numbers.

  /** Any two cells of the column compare as numbers. */
  predicate NumericColumn(rows: seq<Row>, column: nat) {
    forall a, b | a in rows && b in rows :: AsNumbers(KeyOf(a, column), KeyOf(b, column))
  }

  /** A column compares as numbers when all its cells have one and all by sort key, or all as text with a digit. */
  lemma NumericIff(rows: seq<Row>, column: nat)
    ensures NumericColumn(rows, column) <==>
            && (forall r | r in rows :: KeyOf(r, column).n.Some?)
            && ((forall r | r in rows :: KeyOf(r, column).sortKey) || forall r | r in rows :: KeyOf(r, column).hasDigit)
  {
  }

  function Value(column: nat, dir: Direction): Row -> real {
    (r: Row) =>
      var v := if KeyOf(r, column).n.Some? then KeyOf(r, column).n.value else 0.0;
      if dir.Asc? then v else -v
  }

  lemma NumericColumnRanks(rows: seq<Row>, column: nat, dir: Direction, collate: (string, string) -> int)
    requires NumericColumn(rows, column)
    ensures Ranks(ColumnOrder(column, dir, collate), Value(column, dir), rows)
  {
  }

  /** A fully numeric column comes out in ascending or descending order, ties as they were. */
  lemma {:induction false} NumericColumnSorts(rows: seq<Row>, column: nat, dir: Direction,
                                              collate: (string, string) -> int)
    requires NumericColumn(rows, column)
    ensures var sorted := Sort(rows, ColumnOrder(column, dir, collate));
      Sorted(sorted, Value(column, dir)) && StableTo(rows, sorted, Value(column, dir)) &&
        multiset(sorted) == multiset(rows)
  {
    hide ColumnOrder, Value;
    NumericColumnRanks(rows, column, dir, collate);
    SortSorts(rows, ColumnOrder(column, dir, collate), Value(column, dir));
    SortKeepsRows(rows, ColumnOrder(column, dir, collate));
  }

  lemma {:induction false} ClassNegates(rows: seq<Row>, column: nat, x: real)
    ensures Class(rows, Value(column, Desc), -x) == Class(rows, Value(column, Asc), x)
  {
    if rows != [] { ClassNegates(rows[..|rows| - 1], column, x); }
  }

  /** Clicking a numeric column twice more (descending, then ascending again) restores the first order. */
  lemma {:induction false} ThreeClicksAreOne(rows: seq<Row>, column: nat, collate: (string, string) -> int)
    requires NumericColumn(rows, column)
    ensures var asc, desc := ColumnOrder(column, Asc, collate), ColumnOrder(column, Desc, collate);
      Sort(Sort(Sort(rows, asc), desc), asc) == Sort(rows, asc)
  {
    hide ColumnOrder, Value, Sort, Class;
    var asc, desc := ColumnOrder(column, Asc, collate), ColumnOrder(column, Desc, collate);
    var one := Sort(rows, asc);
    NumericColumnSorts(rows, column, Asc, collate);
    SameRowsNumeric(rows, one, column);
    var two := Sort(one, desc);
    NumericColumnSorts(one, column, Desc, collate);
    SameRowsNumeric(one, two, column);
    var three := Sort(two, asc);
    NumericColumnSorts(two, column, Asc, collate);
    forall x
      ensures Class(three, Value(column, Asc), x) == Class(one, Value(column, Asc), x)
    {
      ClassNegates(two, column, x);
      ClassNegates(one, column, x);
    }
    StableSortIsUnique(three, one, Value(column, Asc));
  }

  lemma SameRowsNumeric(a: seq<Row>, b: seq<Row>, column: nat)
    requires NumericColumn(a, column) && multiset(a) == multiset(b)
    ensures NumericColumn(b, column)
  {
    forall r | r in b
      ensures r in a
    {
      assert r in multiset(b);
    }
  }

  // A column of texts.

  /** No two cells of the column compare as numbers. */
  predicate TextColumn(rows: seq<Row>, column: nat) {
    forall a, b | a in rows && b in rows :: !AsNumbers(KeyOf(a, column), KeyOf(b, column))
  }

  lemma TextIf(rows: seq<Row>, column: nat)
    requires forall r | r in rows :: KeyOf(r, column).n.None?
    ensures TextColumn(rows, column)
  {
  }

  /** The platform's text comparison goes by a place for every text. */
  ghost predicate CollatesBy(collate: (string, string) -> int, place: string -> real) {
    forall x, y :: Sign(place(x) - place(y)) == Sign(collate(x, y) as real)
  }

  function PlaceOf(column: nat, dir: Direction, place: string -> real): Row -> real {
    (r: Row) => if dir.Asc? then place(KeyOf(r, column).text) else -place(KeyOf(r, column).text)
  }

  lemma TextColumnRanks(rows: seq<Row>, column: nat, dir: Direction, collate: (string, string) -> int,
                        place: string -> real)
    requires TextColumn(rows, column) && CollatesBy(collate, place)
    ensures Ranks(ColumnOrder(column, dir, collate), PlaceOf(column, dir, place), rows)
  {
    forall a, b | a in rows && b in rows
      ensures Sign(PlaceOf(column, dir, place)(a) - PlaceOf(column, dir, place)(b)) ==
              Sign(ColumnOrder(column, dir, collate)(a, b) as real)
    {
      var x, y := KeyOf(a, column).text, KeyOf(b, column).text;
      assert Sign(place(x) - place(y)) == Sign(collate(x, y) as real);
    }
  }

  /** A column of texts comes out in the platform's order of texts, or its reverse, ties as they were. */
  lemma TextColumnSorts(rows: seq<Row>, column: nat, dir: Direction, collate: (string, string) -> int,
                        place: string -> real)
    requires TextColumn(rows, column) && CollatesBy(collate, place)
    ensures var sorted := Sort(rows, ColumnOrder(column, dir, collate));
      Sorted(sorted, PlaceOf(column, dir, place)) && StableTo(rows, sorted, PlaceOf(column, dir, place)) &&
        multiset(sorted) == multiset(rows)
  {
    hide ColumnOrder, PlaceOf;
    TextColumnRanks(rows, column, dir, collate, place);
    SortSorts(rows, ColumnOrder(column, dir, collate), PlaceOf(column, dir, place));
    SortKeepsRows(rows, ColumnOrder(column, dir, collate));
  }

  // A column that mixes the two.

  function OneCell(id: nat, n: Option<real>, text: string): Row {
    Row(id, text, [Key(n, n.Some?, text, false)], false)
  }

  /**
   * A mixed column need have no order: of the cells "b2", "a10" and "aa" each comes before the next,
   * and the last before the first, so no ranking agrees with the comparison.
   */
  lemma MixedColumnHasNoOrder(collate: (string, string) -> int, rank: Row -> real)
    requires collate("a10", "aa") < 0 && collate("aa", "b2") < 0
    ensures var rows := [OneCell(0, Some(2.0), "b2"), OneCell(1, Some(10.0), "a10"), OneCell(2, None, "aa")];
      !Ranks(ColumnOrder(0, Asc, collate), rank, rows)
  {
    var x, y, z := OneCell(0, Some(2.0), "b2"), OneCell(1, Some(10.0), "a10"), OneCell(2, None, "aa");
    var rows, cmp := [x, y, z], ColumnOrder(0, Asc, collate);
    assert x in rows && y in rows && z in rows;
    assert KeyOf(x, 0) == Key(Some(2.0), true, "b2", false) && KeyOf(y, 0) == Key(Some(10.0), true, "a10", false);
    assert KeyOf(z, 0) == Key(None, false, "aa", false);
    assert cmp(x, y) < 0 && cmp(y, z) < 0 && cmp(z, x) < 0;
    assert Ranks(cmp, rank, rows) ==> Sign(rank(x) - rank(y)) == -1;
    assert Ranks(cmp, rank, rows) ==> Sign(rank(y) - rank(z)) == -1;
    assert Ranks(cmp, rank, rows) ==> Sign(rank(z) - rank(x)) == -1;
  }

  // The table under the header clicks.

  function EmptyStates(rows: seq<Row>): seq<Row> {
    if rows == [] then []
    else
      var rest, r := EmptyStates(rows[..|rows| - 1]), rows[|rows| - 1];
      if r.emptyState then rest + [r] else rest
  }

  datatype Mark = Mark(column: nat, dir: Direction)

  class SortableTable {
    var rows: seq<Row>
    var mark: Option<Mark>

    constructor (rows: seq<Row>)
      ensures this.rows == rows && mark == None
    {
      this.rows, mark := rows, None;
    }

    /** A click on a header: sort the data rows and append them again, behind any empty-state rows. */
    method SortBy(column: nat, collate: (string, string) -> int)
      modifies this
      ensures |DataRows(old(rows))| < 2 ==> rows == old(rows) && mark == old(mark)
      ensures |DataRows(old(rows))| >= 2 ==>
        var dir := if old(mark) == Some(Mark(column, Asc)) then Desc else Asc;
        && mark == Some(Mark(column, dir))
        && DataRows(rows) == Sort(DataRows(old(rows)), ColumnOrder(column, dir, collate))
        && rows == EmptyStates(old(rows)) + DataRows(rows)
      ensures multiset(DataRows(rows)) == multiset(DataRows(old(rows))) && EmptyStates(rows) == EmptyStates(old(rows))
    {
      hide ColumnOrder;
      var data := DataRows(rows);
      if |data| < 2 { return; }
      var dir := if mark == Some(Mark(column, Asc)) then Desc else Asc;
      mark := Some(Mark(column, dir));
      var cmp := ColumnOrder(column, dir, collate);
      var sorted := InPlaceSort(data, cmp);
      SortKeepsRows(data, cmp);
      OnlyData(rows);
      forall r | r in sorted
        ensures !r.emptyState
      {
        assert r in multiset(data);
      }
      AppendData(EmptyStates(rows), sorted);
      // appending a row that is already in the table moves it to the end
      rows := EmptyStates(rows) + sorted;
    }
  }

  method InPlaceSort(data: seq<Row>, cmp: Order) returns (sorted: seq<Row>)
    ensures sorted == Sort(data, cmp)
  {
    sorted := [];
    for i := 0 to |data|
      invariant sorted == Sort(data[..i], cmp)
    {
      assert data[..i + 1][..i] == data[..i];
      sorted := Insert(sorted, data[i], cmp);
    }
    assert data[..|data|] == data;
  }

  lemma {:induction false} OnlyData(rows: seq<Row>)
    ensures forall r | r in DataRows(rows) :: !r.emptyState
    ensures forall r | r in EmptyStates(rows) :: r.emptyState
  {
    if rows != [] { OnlyData(rows[..|rows| - 1]); }
  }

  lemma NoData()
    ensures DataRows([]) == [] && EmptyStates([]) == []
  {
  }

  lemma SnocData(rows: seq<Row>, r: Row)
    ensures DataRows(rows + [r]) == DataRows(rows) + if r.emptyState then [] else [r]
    ensures EmptyStates(rows + [r]) == EmptyStates(rows) + if r.emptyState then [r] else []
  {
    assert (rows + [r])[..|rows|] == rows;
  }

  lemma {:induction false} AppendData(empty: seq<Row>, data: seq<Row>)
    requires (forall r | r in empty :: r.emptyState) && forall r | r in data :: !r.emptyState
    ensures DataRows(empty + data) == data && EmptyStates(empty + data) == empty
    decreases |empty| + |data|
  {
    hide DataRows, EmptyStates;
    NoData();
    if empty + data != [] {
      if data != [] {
        var rest, last := data[..|data| - 1], data[|data| - 1];
        assert data == rest + [last] && empty + data == (empty + rest) + [last];
        AppendData(empty, rest);
        SnocData(empty + rest, last);
      } else {
        var rest, last := empty[..|empty| - 1], empty[|empty| - 1];
        assert empty == rest + [last] && empty + data == (rest + []) + [last];
        AppendData(rest, []);
        SnocData(rest + [], last);
      }
    }
  }

  // Sorting under the pager.

  lemma {:induction false} MatchedCounts(rows: seq<Row>, q: string, t: Text, r: Row)
    ensures multiset(Matched(rows, q, t))[r] == if Matches(r, q, t) then multiset(rows)[r] else 0
  {
    hide Matches;
    if rows != [] {
      assert rows == rows[..|rows| - 1] + [rows[|rows| - 1]];
      MatchedCounts(rows[..|rows| - 1], q, t, r);
    }
  }

  lemma SameSize(a: seq<Row>, b: seq<Row>)
    requires multiset(a) == multiset(b)
    ensures |a| == |b|
  {
    assert |multiset(a)| == |a| && |multiset(b)| == |b|;
  }

  /** A sort changes neither which rows match the filter nor how many pages they fill. */
  lemma SortKeepsMatches(rows: seq<Row>, cmp: Order, q: string, t: Text)
    ensures multiset(Matched(Sort(rows, cmp), q, t)) == multiset(Matched(rows, q, t))
    ensures PageCount(|Matched(Sort(rows, cmp), q, t)|) == PageCount(|Matched(rows, q, t)|)
  {
    hide Matched, PageCount;
    SortKeepsRows(rows, cmp);
    forall r
      ensures multiset(Matched(Sort(rows, cmp), q, t))[r] == multiset(Matched(rows, q, t))[r]
    {
      MatchedCounts(rows, q, t, r);
      MatchedCounts(Sort(rows, cmp), q, t, r);
    }
    assert multiset(Matched(Sort(rows, cmp), q, t)) == multiset(Matched(rows, q, t));
    SameSize(Matched(Sort(rows, cmp), q, t), Matched(rows, q, t));
  }
}
