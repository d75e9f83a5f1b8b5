/**
 * `tables_to_gridtables` (app.py:407-450): each HTML table becomes a two-column
 * grid. A table is abstracted to the texts of its header cells and the cell
 * fragments of its body rows; fragments are kept as opaque strings.
 */
module Tables {
  import opened Wrappers
  import opened Seqs

  /**
   * A parsed table: the `th` texts of its `thead` (None when there is no
   * `thead`), and the stripped `td`/`th` fragments of each `tr` of its `tbody`
   * (None when there is no `tbody`).
   */
  datatype Table = Table(header: Option<seq<string>>, body: Option<seq<seq<string>>>)

  /** One `gt-row` of the grid: exactly two cells. */
  datatype GridRow = GridRow(left: string, right: string)

  /** A `gridtable`: the `gt-head` labels and the body rows. */
  datatype Grid = Grid(head: seq<string>, rows: seq<GridRow>)

  const DefaultHeader: seq<string> := ["Category", "Fact / Detail"]

  /** The header texts, `[]` when there is no `thead`. */
  function HeaderTexts(t: Table): seq<string> {
    if t.header.Some? then t.header.value else []
  }

  /** The body rows, `[]` when there is no `tbody`. */
  function BodyRows(t: Table): seq<seq<string>> {
    if t.body.Some? then t.body.value else []
  }

  /** `headers[:2] if headers else ["Category", "Fact / Detail"]`. */
  function GridHeader(headers: seq<string>): (head: seq<string>)
    ensures 1 <= |head| <= 2
    ensures headers == [] ==> head == DefaultHeader
    ensures headers != [] ==> |head| == if |headers| < 2 then |headers| else 2
    ensures headers != [] ==> forall i :: 0 <= i < |head| ==> head[i] == headers[i]
  {
    if headers == [] then DefaultHeader
    else if |headers| < 2 then headers
    else headers[..2]
  }

  /** The grid row of a non-empty source row: cells 0 and 1, `""` for a missing one. */
  function RowOf(cells: seq<string>): (row: GridRow)
    requires cells != []
    ensures row.left == cells[0]
    ensures row.right == if |cells| >= 2 then cells[1] else ""
  {
    GridRow(cells[0], if |cells| >= 2 then cells[1] else "")
  }

  /** The grid rows, skipping rows with no cells. */
  function GridRows(rows: seq<seq<string>>): (out: seq<GridRow>)
    ensures |out| <= |rows|
  {
    if rows == [] then []
    else (if rows[0] == [] then [] else [RowOf(rows[0])]) + GridRows(rows[1..])
  }

  function ToGrid(t: Table): Grid {
    Grid(GridHeader(HeaderTexts(t)), GridRows(BodyRows(t)))
  }

  /** The rows that have at least one cell, in order. */
  function NonEmptyRows(rows: seq<seq<string>>): (out: seq<seq<string>>)
    ensures forall i :: 0 <= i < |out| ==> out[i] != []
  {
    if rows == [] then []
    else (if rows[0] == [] then [] else [rows[0]]) + NonEmptyRows(rows[1..])
  }

  /**
   * Row `i` of the grid is built from the `i`-th non-empty source row: its
   * first two cells, padded with `""`. Empty rows are skipped, and the order is
   * kept.
   */
  lemma {:induction false} GridRowsFollowSource(rows: seq<seq<string>>)
    ensures |GridRows(rows)| == |NonEmptyRows(rows)|
    ensures forall i :: 0 <= i < |GridRows(rows)| ==>
      GridRows(rows)[i] == RowOf(NonEmptyRows(rows)[i])
  {
    if rows != [] {
      GridRowsFollowSource(rows[1..]);
    }
  }

  /** Rows of a table concatenated produce the grids' rows concatenated. */
  lemma {:induction false} GridRowsAppend(a: seq<seq<string>>, b: seq<seq<string>>)
    ensures GridRows(a + b) == GridRows(a) + GridRows(b)
  {
    if a == [] {
      assert a + b == b;
    } else {
      assert (a + b)[0] == a[0];
      assert (a + b)[1..] == a[1..] + b;
      GridRowsAppend(a[1..], b);
    }
  }

  /** Cells past the second never reach the grid. */
  lemma ExtraCellsDropped(cells: seq<string>, extra: seq<string>)
    requires |cells| >= 2
    ensures RowOf(cells + extra) == RowOf(cells)
  {
  }

  /** `while len(r) < 2: r.append("")`: a row padded with empty cells to two. */
  method PadRow(cells: seq<string>) returns (r: seq<string>)
    ensures |r| == if |cells| < 2 then 2 else |cells|
    ensures r[..|cells|] == cells
    ensures forall j :: |cells| <= j < |r| ==> r[j] == ""
  {
    r := cells;
    while |r| < 2
      invariant |cells| <= |r| && r[..|cells|] == cells
      invariant |cells| < |r| ==> |r| <= 2
      invariant forall j :: |cells| <= j < |r| ==> r[j] == ""
      decreases 2 - |r|
    {
      r := r + [""];
    }
  }

  /** The first two cells of a padded row are the row's grid row. */
  lemma PaddedRow(cells: seq<string>, r: seq<string>)
    requires cells != [] && |r| >= 2 && |cells| <= |r| && r[..|cells|] == cells
    requires forall j :: |cells| <= j < |r| ==> r[j] == ""
    ensures GridRow(r[0], r[1]) == RowOf(cells)
  {
    assert r[0] == r[..|cells|][0];
    if |cells| >= 2 {
      assert r[1] == r[..|cells|][1];
    }
  }

  /** One step of the row loop: row `i` contributes its grid row, if any, to `out`. */
  lemma GridRowsStep(rows: seq<seq<string>>, i: nat, out: seq<GridRow>)
    requires i < |rows| && GridRows(rows) == out + GridRows(rows[i..])
    ensures rows[i] == [] ==> GridRows(rows) == out + GridRows(rows[i + 1..])
    ensures rows[i] != [] ==> GridRows(rows) == out + [RowOf(rows[i])] + GridRows(rows[i + 1..])
  {
    var t := rows[i..];
    assert t[0] == rows[i] && t[1..] == rows[i + 1..];
    GridRowsCons(t);
    if rows[i] != [] {
      AppendAssoc(out, [RowOf(rows[i])], GridRows(rows[i + 1..]));
    } else {
      assert [] + GridRows(rows[i + 1..]) == GridRows(rows[i + 1..]);
    }
  }

  lemma GridRowsCons(rows: seq<seq<string>>)
    requires rows != []
    ensures GridRows(rows) == (if rows[0] == [] then [] else [RowOf(rows[0])]) + GridRows(rows[1..])
  {
  }

  /**
   * The rewrite loop of app.py:436-448: each non-empty row is padded to two
   * cells and its first two become a grid row; empty rows are skipped.
   */
  method BuildGrid(t: Table) returns (g: Grid)
    ensures g == ToGrid(t)
  {
    var rows := BodyRows(t);
    var out: seq<GridRow> := [];
    for i := 0 to |rows|
      invariant GridRows(rows) == out + GridRows(rows[i..])
    {
      GridRowsStep(rows, i, out);
      if rows[i] == [] {
        continue;
      }
      var r := PadRow(rows[i]);
      PaddedRow(rows[i], r);
      out := out + [GridRow(r[0], r[1])];
    }
    assert rows[|rows|..] == [];
    g := Grid(GridHeader(HeaderTexts(t)), out);
  }
}
