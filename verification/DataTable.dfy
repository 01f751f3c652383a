// Client-side table tools: a filter and pager that own row visibility, and a column sort that
// reorders the rows under them.
module DataTable {
  import opened Collections

  // A cell's sort key: its data-sort number if it carries one, else the number in its text, if any.

  datatype Key = Key(n: Option<real>, hasDigit: bool, text: string, sortKey: bool)

  /** A table row as the page holds it; `emptyState` rows span all columns and are not data. */
  datatype Row = Row(id: nat, text: string, keys: seq<Key>, emptyState: bool)

  const PAGE_SIZE := 50

  function DataRows(rows: seq<Row>): seq<Row> {
    if rows == [] then []
    else
      var rest, r := DataRows(rows[..|rows| - 1]), rows[|rows| - 1];
      if r.emptyState then rest else rest + [r]
  }

  // Filtering. `fold` is trimming and lower-casing.

  datatype Text = Text(fold: string -> string, lower: string -> string)

  predicate Contains(s: string, q: string) {
    exists i | 0 <= i <= |s| :: q <= s[i..]
  }

  predicate Matches(r: Row, q: string, t: Text) {
    q == "" || Contains(t.lower(r.text), q)
  }

  function Matched(rows: seq<Row>, q: string, t: Text): seq<Row> {
    if rows == [] then []
    else
      var rest, r := Matched(rows[..|rows| - 1], q, t), rows[|rows| - 1];
      if Matches(r, q, t) then rest + [r] else rest
  }

  // Paging.

  function PageCount(n: nat): nat {
    if n == 0 then 1 else (n + PAGE_SIZE - 1) / PAGE_SIZE
  }

  function ClampPage(page: int, n: nat): int {
    var p := if page > 0 then page else 0;
    if PageCount(n) - 1 < p then PageCount(n) - 1 else p
  }

  function PageOf(matched: seq<Row>, page: int): seq<Row>
    requires 0 <= page < PageCount(|matched|)
  {
    var end := (page + 1) * PAGE_SIZE;
    if page * PAGE_SIZE > |matched| then []
    else if end <= |matched| then matched[page * PAGE_SIZE..end]
    else matched[page * PAGE_SIZE..]
  }

  /** The first `n` pages, one after the other. */
  function Pages(matched: seq<Row>, n: nat): seq<Row>
    requires n <= PageCount(|matched|)
  {
    if n == 0 then [] else Pages(matched, n - 1) + PageOf(matched, n - 1)
  }

  lemma PageCountIsLeast(n: nat)
    ensures n <= PageCount(n) * PAGE_SIZE && PageCount(n) >= 1
    ensures n > 0 ==> (PageCount(n) - 1) * PAGE_SIZE < n
  {
  }

  lemma {:induction false} PagesArePrefix(matched: seq<Row>, n: nat)
    requires n <= PageCount(|matched|)
    ensures Pages(matched, n) == if n * PAGE_SIZE <= |matched| then matched[..n * PAGE_SIZE] else matched
  {
    PageCountIsLeast(|matched|);
    if n > 0 { PagesArePrefix(matched, n - 1); }
  }

  /** The pages partition the matching rows, in order, at most fifty to a page and none but the only one empty. */
  lemma PagesPartition(matched: seq<Row>, page: nat)
    ensures Pages(matched, PageCount(|matched|)) == matched
    ensures page < PageCount(|matched|) ==> |PageOf(matched, page)| <= 50
    ensures page < PageCount(|matched|) && matched != [] ==> PageOf(matched, page) != []
    ensures page < PageCount(|matched|) - 1 ==> |PageOf(matched, page)| == 50
  {
    PageCountIsLeast(|matched|);
    PagesArePrefix(matched, PageCount(|matched|));
  }

  // The pager's state and events.

  datatype Label = Label(first: nat, last: nat, total: nat)

  /** "Showing first-last of total" counts the displayed rows from 1. */
  ghost predicate Labels(l: Label, matched: seq<Row>, shown: seq<Row>) {
    && l.total == |matched|
    && if matched == [] then l.first == l.last == 0
       else 1 <= l.first <= l.last <= |matched| && matched[l.first - 1..l.last] == shown
  }

  function Start(page: int): int { page * PAGE_SIZE }

  function End(page: int, n: nat): int { if Start(page) + PAGE_SIZE < n then Start(page) + PAGE_SIZE else n }

  /** What the table shows of the matching rows on a page, and the state of its controls. */
  ghost predicate Displays(matched: seq<Row>, page: int, shown: seq<Row>, l: Label, prevOff: bool, nextOff: bool,
                           hidden: bool) {
    && 0 <= page < PageCount(|matched|)
    && shown == PageOf(matched, page)
    && Labels(l, matched, shown)
    && (prevOff <==> page == 0) && (nextOff <==> page == PageCount(|matched|) - 1)
    && (hidden <==> PageCount(|matched|) == 1)
  }

  lemma SliceDisplays(matched: seq<Row>, page: int)
    requires 0 <= page < PageCount(|matched|)
    ensures 0 <= Start(page) <= End(page, |matched|) <= |matched|
    ensures var start, end := Start(page), End(page, |matched|);
      Displays(matched, page, matched[start..end], Label(if matched != [] then start + 1 else 0, end, |matched|),
               page <= 0, page >= PageCount(|matched|) - 1, !(|matched| > PAGE_SIZE))
  {
    PageCountIsLeast(|matched|);
  }

  class PagedTable {
    var rows: seq<Row>
    var query: string
    var page: int
    /** The data rows that are displayed. */
    var shown: seq<Row>
    var label_: Label
    var prevDisabled: bool
    var nextDisabled: bool
    var barHidden: bool

    /** What every event leaves behind. */
    ghost predicate Applied(t: Text)
      reads this
    {
      Displays(Matched(DataRows(rows), t.fold(query), t), page, shown, label_, prevDisabled, nextDisabled, barHidden)
    }

    constructor (rows: seq<Row>, t: Text)
      ensures Applied(t) && this.rows == rows && query == "" && page == 0
    {
      this.rows, query, page, shown := rows, "", 0, [];
      label_, prevDisabled, nextDisabled, barHidden := Label(0, 0, 0), true, true, true;
      new;
      Apply(t);
    }

    method Apply(t: Text)
      modifies this
      ensures Applied(t) && rows == old(rows) && query == old(query)
      ensures var last := PageCount(|Matched(DataRows(rows), t.fold(query), t)|) - 1;
        page == if old(page) < 0 then 0 else if old(page) > last then last else old(page)
    {
      hide Matched, DataRows, Displays, PageCount, Start, End;
      var rs := DataRows(rows);
      var q := t.fold(query);
      EmptyQueryMatchesAll(rs, t);
      var matched := if q != "" then Matched(rs, q, t) else rs;
      PageCountIsLeast(|matched|);
      var pc := PageCount(|matched|);
      page := ClampPage(page, |matched|);
      SliceDisplays(matched, page);
      var start, end := Start(page), End(page, |matched|);
      shown := matched[start..end];
      label_ := Label(if matched != [] then start + 1 else 0, end, |matched|);
      prevDisabled := page <= 0;
      nextDisabled := page >= pc - 1;
      barHidden := !(|matched| > PAGE_SIZE);
    }

    method OnInput(value: string, t: Text)
      modifies this
      ensures Applied(t) && rows == old(rows) && query == value && page == 0
    {
      query := value;
      page := 0;
      Apply(t);
    }

    method OnPrev(t: Text)
      requires Applied(t)
      modifies this
      ensures Applied(t) && rows == old(rows) && query == old(query)
      ensures page == if old(page) > 0 then old(page) - 1 else 0
    {
      page := page - 1;
      Apply(t);
    }

    method OnNext(t: Text)
      requires Applied(t)
      modifies this
      ensures Applied(t) && rows == old(rows) && query == old(query)
      ensures page == if old(nextDisabled) then old(page) else old(page) + 1
    {
      page := page + 1;
      Apply(t);
    }

    /** Rows were replaced or reordered under the pager. */
    method OnMutation(newRows: seq<Row>, t: Text)
      modifies this
      ensures Applied(t) && rows == newRows && query == old(query) && page == 0
    {
      rows := newRows;
      page := 0;
      Apply(t);
    }

    /** From the first page, pageCount - 1 clicks on Next reach the last, and no fewer do. */
    method ClickThrough(t: Text, clicks: nat)
      requires Applied(t) && page == 0
      modifies this
      ensures Applied(t) && rows == old(rows) && query == old(query)
      ensures var pc := PageCount(|Matched(DataRows(rows), t.fold(query), t)|);
        page == (if clicks < pc then clicks else pc - 1) && (nextDisabled <==> clicks >= pc - 1)
    {
      for i := 0 to clicks
        invariant Applied(t) && rows == old(rows) && query == old(query)
        invariant var pc := PageCount(|Matched(DataRows(rows), t.fold(query), t)|);
          page == if i < pc then i else pc - 1
      {
        OnNext(t);
      }
    }
  }

  lemma {:induction false} EmptyQueryMatchesAll(rows: seq<Row>, t: Text)
    ensures Matched(rows, "", t) == rows
  {
    if rows != [] {
      EmptyQueryMatchesAll(rows[..|rows| - 1], t);
      assert rows == rows[..|rows| - 1] + [rows[|rows| - 1]];
    }
  }

  /** The filter keeps exactly the rows with the query somewhere in their text; an empty one keeps all. */
  lemma {:induction false} FilterFinds(rows: seq<Row>, q: string, t: Text, r: Row)
    ensures r in Matched(rows, q, t) <==>
            r in rows && (q == "" || exists before, after :: t.lower(r.text) == before + q + after)
  {
    hide Contains;
    ContainsAnywhere(t.lower(r.text), q);
    if rows != [] {
      assert rows == rows[..|rows| - 1] + [rows[|rows| - 1]];
      FilterFinds(rows[..|rows| - 1], q, t, r);
    }
  }

  lemma ContainsAnywhere(s: string, q: string)
    ensures Contains(s, q) <==> exists before, after :: s == before + q + after
  {
    if i :| 0 <= i <= |s| && q <= s[i..] {
      assert s == s[..i] + q + s[i + |q|..];
    }
    if before, after :| s == before + q + after {
      assert s[|before|..] == q + after;
    }
  }

  /** Rows without cells of their own are left out, the others kept. */
  lemma {:induction false} DataRowsAre(rows: seq<Row>, r: Row)
    ensures multiset(DataRows(rows))[r] == if r.emptyState then 0 else multiset(rows)[r]
  {
    if rows != [] {
      assert rows == rows[..|rows| - 1] + [rows[|rows| - 1]];
      DataRowsAre(rows[..|rows| - 1], r);
    }
  }
}
