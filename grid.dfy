/**
 * The tables the PDF reader hands to both extractors, and the grid logic
 * they share (debug.py:97-118, 133-143 and ExtractInvoiceData.py:53-72):
 * column names `col_0 … col_{w-1}`, the anchor rows, the row window after
 * each anchor, and the cells of one column inside that window. A row shorter
 * than the table's width holds empty (NaN) cells at its end.
 */
module Grid {
  import opened Text

  type Row = seq<string>
  type Table = seq<Row>

  /** What the table reader produced: the tables of the document, or the text of its exception. */
  datatype TableRead = Tables(tables: seq<Table>) | ReadError(cause: string)

  /**
   * What an extractor returns: a record per anchor, `None` when there are
   * none, or the `RuntimeError` carrying the message.
   */
  datatype Outcome<R> = NoData | Data(records: seq<R>) | Failed(message: string)

  const FailurePrefix := "Failed to process the PDF: "
  /** `str(KeyError('col_1'))`, raised when a window is cut from a table without that column. */
  const MissingColumnCause := "'col_1'"

  const PackagesLabel := "31 Packages"
  const GoodsLabel := "Description of Goods"

  /** Number of columns of the table's frame: its longest row. */
  function Width(t: Table): (w: nat)
    ensures forall i | 0 <= i < |t| :: |t[i]| <= w
    ensures |t| == 0 ==> w == 0
    ensures |t| > 0 ==> exists i | 0 <= i < |t| :: |t[i]| == w
    decreases |t|
  {
    if |t| == 0 then 0
    else
      var w := Width(t[..|t| - 1]);
      var last := |t[|t| - 1]|;
      assert forall i | 0 <= i < |t| - 1 :: t[..|t| - 1][i] == t[i];
      if last > w then last else w
  }

  /** `f"col_{c}" in df.columns`. */
  predicate HasColumn(t: Table, c: nat) {
    c < Width(t)
  }

  /**
   * `df.iloc[lo:hi][f"col_{c}"].dropna().astype(str).tolist()`: the cells
   * of column `c` in rows `lo` to `hi - 1`, top to bottom, skipping the
   * empty ones.
   */
  function ColumnCells(t: Table, lo: nat, hi: nat, c: nat): (r: seq<string>)
    requires lo <= hi <= |t|
    ensures |r| <= hi - lo
    decreases hi
  {
    if lo == hi then []
    else
      var init := ColumnCells(t, lo, hi - 1, c);
      if c < |t[hi - 1]| then init + [t[hi - 1][c]] else init
  }

  /** The cells are exactly the non-empty column-`c` entries of the window's rows. */
  lemma {:induction false} ColumnCellsMembers(t: Table, lo: nat, hi: nat, c: nat)
    requires lo <= hi <= |t|
    ensures forall x | x in ColumnCells(t, lo, hi, c) :: exists i | lo <= i < hi :: c < |t[i]| && t[i][c] == x
    ensures forall i | lo <= i < hi && c < |t[i]| :: t[i][c] in ColumnCells(t, lo, hi, c)
    decreases hi
  {
    if lo < hi {
      ColumnCellsMembers(t, lo, hi - 1, c);
    }
  }

  /** When every row of the window reaches column `c`, no cell is dropped and the order is the rows' order. */
  lemma {:induction false} ColumnCellsFull(t: Table, lo: nat, hi: nat, c: nat)
    requires lo <= hi <= |t|
    requires forall i | lo <= i < hi :: c < |t[i]|
    ensures |ColumnCells(t, lo, hi, c)| == hi - lo
    ensures forall k | 0 <= k < hi - lo :: ColumnCells(t, lo, hi, c)[k] == t[lo + k][c]
    decreases hi
  {
    if lo < hi {
      var init := ColumnCells(t, lo, hi - 1, c);
      var r := ColumnCells(t, lo, hi, c);
      assert r == init + [t[hi - 1][c]];
      ColumnCellsFull(t, lo, hi - 1, c);
      forall k | 0 <= k < hi - lo ensures r[k] == t[lo + k][c] {
        if k < hi - 1 - lo {
          assert r[k] == init[k];
        }
      }
    }
  }

  /** The cells depend only on the rows inside the window. */
  lemma {:induction false} ColumnCellsLocal(t: Table, u: Table, lo: nat, hi: nat, c: nat)
    requires lo <= hi <= |t| && hi <= |u|
    requires forall i | lo <= i < hi :: t[i] == u[i]
    ensures ColumnCells(t, lo, hi, c) == ColumnCells(u, lo, hi, c)
    decreases hi
  {
    if lo < hi {
      ColumnCellsLocal(t, u, lo, hi - 1, c);
    }
  }

  /**
   * `" ".join(df.iloc[lo:hi][f"col_{c}"].dropna().astype(str)).strip()`, or
   * "" when the table has no such column.
   */
  function ColumnText(t: Table, lo: nat, hi: nat, c: nat): (r: string)
    requires lo <= hi <= |t|
    ensures !HasColumn(t, c) ==> r == ""
    ensures r == [] || (!IsSpace(r[0]) && !IsSpace(r[|r| - 1]))
  {
    if HasColumn(t, c) then Strip(JoinSpaces(ColumnCells(t, lo, hi, c))) else ""
  }

  /** `str.contains("31 Packages|Description of Goods", case=False)` on one cell. */
  predicate IsAnchorCell(cell: string) {
    ContainsCI(cell, PackagesLabel) || ContainsCI(cell, GoodsLabel)
  }

  /** The row's mask entry: some cell holds an anchor label (empty cells never do). */
  predicate IsAnchorRow(row: Row) {
    exists k | 0 <= k < |row| :: IsAnchorCell(row[k])
  }

  /** The anchor rows among the first `n` rows, in increasing order. */
  function AnchorRowsBelow(t: Table, n: nat): (r: seq<nat>)
    requires n <= |t|
    ensures forall k | 0 <= k < |r| :: r[k] < n && IsAnchorRow(t[r[k]])
    ensures forall i | 0 <= i < n && IsAnchorRow(t[i]) :: i in r
    ensures forall j, k | 0 <= j < k < |r| :: r[j] < r[k]
    decreases n
  {
    if n == 0 then []
    else
      var init := AnchorRowsBelow(t, n - 1);
      if IsAnchorRow(t[n - 1]) then init + [n - 1] else init
  }

  /** `match_mask[match_mask].index`. */
  function AnchorRows(t: Table): (r: seq<nat>)
    ensures forall k | 0 <= k < |r| :: r[k] < |t| && IsAnchorRow(t[r[k]])
    ensures forall i | 0 <= i < |t| && IsAnchorRow(t[i]) :: i in r
    ensures forall j, k | 0 <= j < k < |r| :: r[j] < r[k]
  {
    AnchorRowsBelow(t, |t|)
  }

  /** An anchor row of the document: which table, which row. */
  datatype Anchor = Anchor(table: nat, row: nat)

  /** Document order: table first, then row. */
  predicate Before(a: Anchor, b: Anchor) {
    a.table < b.table || (a.table == b.table && a.row < b.row)
  }

  function AnchorsOf(ti: nat, rows: seq<nat>): (r: seq<Anchor>)
    ensures |r| == |rows|
    ensures forall k | 0 <= k < |rows| :: r[k] == Anchor(ti, rows[k])
  {
    seq(|rows|, k requires 0 <= k < |rows| => Anchor(ti, rows[k]))
  }

  /** Every anchor of every table, in the order the two nested loops visit them. */
  function AllAnchors(ts: seq<Table>): (r: seq<Anchor>)
    ensures forall k | 0 <= k < |r| ::
      r[k].table < |ts| && r[k].row < |ts[r[k].table]| && IsAnchorRow(ts[r[k].table][r[k].row])
    ensures forall k | 0 <= k < |r| :: r[k].row in AnchorRows(ts[r[k].table])
    ensures forall ti, i | 0 <= ti < |ts| && 0 <= i < |ts[ti]| && IsAnchorRow(ts[ti][i]) :: Anchor(ti, i) in r
    ensures forall j, k | 0 <= j < k < |r| :: Before(r[j], r[k])
    decreases |ts|
  {
    if |ts| == 0 then []
    else
      var n := |ts| - 1;
      var init := AllAnchors(ts[..n]);
      var rows := AnchorRows(ts[n]);
      var more := AnchorsOf(n, rows);
      assert forall ti | 0 <= ti < n :: ts[..n][ti] == ts[ti];
      forall ti, i | 0 <= ti <= n && 0 <= i < |ts[ti]| && IsAnchorRow(ts[ti][i])
        ensures Anchor(ti, i) in init + more
      {
        if ti == n {
          var k :| 0 <= k < |rows| && rows[k] == i;
          assert more[k] == Anchor(ti, i);
        } else {
          assert ts[..n][ti] == ts[ti];
        }
      }
      init + more
  }

  /** The anchors of the first `n + 1` tables: those of the first `n`, then table `n`'s. */
  lemma AllAnchorsSplit(ts: seq<Table>, n: nat)
    requires n < |ts|
    ensures AllAnchors(ts[..n + 1]) == AllAnchors(ts[..n]) + AnchorsOf(n, AnchorRows(ts[n]))
  {
    assert ts[..n + 1][..n] == ts[..n];
    assert ts[..n + 1][n] == ts[n];
  }

  /** Some table has an anchor but no `col_1`: the first such anchor raises `KeyError`. */
  predicate MissingCol1(ts: seq<Table>) {
    exists ti | 0 <= ti < |ts| :: AnchorRows(ts[ti]) != [] && !HasColumn(ts[ti], 1)
  }

  /** A table whose anchors all found col_1 keeps the prefix free of the `KeyError`. */
  lemma NoMissingExtend(ts: seq<Table>, ti: nat)
    requires ti < |ts| && !MissingCol1(ts[..ti])
    requires AnchorRows(ts[ti]) != [] ==> HasColumn(ts[ti], 1)
    ensures !MissingCol1(ts[..ti + 1])
  {
    assert forall tj | 0 <= tj < ti :: ts[..ti][tj] == ts[tj];
    assert forall tj | 0 <= tj <= ti :: ts[..ti + 1][tj] == ts[tj];
  }

  /**
   * End of `df.iloc[i:i + rowsAfter + 1]` once capped at `n = len(df)`,
   * with Python's slice rules for a stop below the start or below zero.
   */
  function WindowEnd(n: nat, i: nat, rowsAfter: int): (hi: nat)
    requires i < n
    ensures i <= hi <= n
    ensures rowsAfter >= 0 ==> hi == if i + rowsAfter + 1 > n then n else i + rowsAfter + 1
    ensures -(i as int) - 1 <= rowsAfter < 0 ==> hi == i
  {
    var stop := i + rowsAfter + 1;
    var capped := if stop > n then n else stop;
    var fromEnd := if capped < 0 then capped + n else capped;
    if fromEnd < i then i else fromEnd
  }
}
