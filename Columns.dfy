/** The result table's sort state and headers. Clicking a header either
    flips the direction (same column) or makes that column current in
    ascending order; the rows are then stably sorted on a lower-cased field
    of the clicked column, and only that column's header carries an arrow. */
module Columns {
  import opened PyStrings
  import opened Paths
  import opened Sorting
  import opened Engine

  /** `(sort_column, sort_reverse)`. */
  datatype SortState = SortState(column: string, reverse: bool)

  /** The state before any click: by path, ascending. */
  const InitialSort: SortState := SortState("Path", false)

  /** The table's columns, in display order. */
  const ColumnNames: seq<string> := ["Path", "SHA256", "Action"]

  const Up: char := '\U{25B2}'
  const Down: char := '\U{25BC}'

  /** The state after a click on the header of `column`. */
  function Click(st: SortState, column: string): (r: SortState)
    ensures r.column == column
    ensures r.reverse <==> st.column == column && !st.reverse
  {
    if st.column == column then SortState(column, !st.reverse) else SortState(column, false)
  }

  /** Clicking the current column twice restores the state. */
  lemma ClickTwice(st: SortState)
    ensures Click(Click(st, st.column), st.column) == st
  {
  }

  /** From the initial state, the first click on `Path` sorts descending and
      the first click on any other column sorts ascending. */
  lemma FirstClick(column: string)
    ensures Click(InitialSort, column).reverse <==> column == "Path"
  {
  }

  /** The key a click on `column` sorts by: the lower-cased base name for
      `Path`, the lower-cased digest for `SHA256`, and the lower-cased
      action for anything else. */
  function SortKey(column: string, row: Row): (k: string)
  {
    if column == "Path" then Basename(Lower(row.path))
    else if column == "SHA256" then Lower(row.sha)
    else Lower(row.action)
  }

  function KeyOf(column: string): Row -> string
  {
    row => SortKey(column, row)
  }

  /** `item_list.sort(key=..., reverse=reverse)` for a click on `column`. */
  function SortRows(rows: seq<Row>, column: string, reverse: bool): seq<Row>
  {
    SortBy(KeyOf(column), reverse, rows)
  }

  /** The rows after sorting are the same rows, ordered by the column's key,
      and rows with equal keys keep their previous relative order. */
  lemma SortRowsSpec(rows: seq<Row>, column: string, reverse: bool, k: string)
    ensures multiset(SortRows(rows, column, reverse)) == multiset(rows)
    ensures Sorted(KeyOf(column), reverse, SortRows(rows, column, reverse))
    ensures WithKey(KeyOf(column), k, SortRows(rows, column, reverse)) == WithKey(KeyOf(column), k, rows)
  {
    SortBySorted(KeyOf(column), reverse, rows);
    SortByStable(KeyOf(column), reverse, rows, k);
  }

  /** The header text of `col` after a click on `column`. */
  function Heading(column: string, reverse: bool, col: string): (text: string)
  {
    if col == column then col + " " + [if reverse then Down else Up] else col
  }

  /** Only the clicked column's header differs from its plain name, and its
      arrow points down exactly when the order is reversed. */
  lemma HeadingMarksClicked(column: string, reverse: bool, col: string)
    ensures Heading(column, reverse, col) != col <==> col == column
    ensures col == column ==>
              Heading(column, reverse, col) == col + " " + [if reverse then Down else Up]
  {
    if col == column {
      assert |Heading(column, reverse, col)| == |col| + 2;
    }
  }
}
