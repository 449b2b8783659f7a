/**
 * `extract_filtered_data` (ExtractInvoiceData.py:50-85): the base variant,
 * with a fixed window of the anchor row and at most four rows after it, no
 * "marks" filtering and no item price.
 */
module BaseExtractor {
  import opened Text
  import opened Patterns
  import opened MarksFields
  import opened CustomsFields
  import opened Grid
  import opened ExtendedExtractor

  /** One row of the result frame: four fields, no price. */
  datatype BaseRecord = BaseRecord(
    marks: string,          // "Marks & Nosof Packages"
    description: string,    // "Description"
    commodityCode: string,  // "Commodity_Code"
    grossMass: string)      // "Gross_Mass"

  const FollowingRows := 4

  /** `min(i + 4 + 1, n)`. */
  function FixedWindowEnd(n: nat, i: nat): (hi: nat)
    requires i < n
    ensures i < hi <= n && hi - i <= FollowingRows + 1
    ensures hi == n || hi == i + FollowingRows + 1
  {
    var e := i + FollowingRows + 1;
    if e < n then e else n
  }

  /** The fixed window is the extended variant's window at its default of four rows. */
  lemma FixedWindowIsDefault(n: nat, i: nat)
    requires i < n
    ensures FixedWindowEnd(n, i) == WindowEnd(n, i, 4)
  {
  }

  /** The record read from a window's col_1 and col_12 texts. */
  function BaseWindowRecord(col1: string, col12: string): (r: BaseRecord)
    ensures AllDigits(r.commodityCode)
    ensures r.grossMass == "" || IsDecimal(r.grossMass)
    ensures '\n' !in r.description
  {
    BaseRecord(ContainerNumber(col1), Description(col1), CommodityCode(col12), GrossMass(col12))
  }

  /** The record the window at anchor row `i` yields. */
  function BaseBlockRecord(t: Table, i: nat): BaseRecord
    requires i < |t| && HasColumn(t, 1)
  {
    var hi := FixedWindowEnd(|t|, i);
    BaseWindowRecord(ColumnText(t, i, hi, 1), ColumnText(t, i, hi, 12))
  }

  /** The records are those of the anchors, one each, in document order. */
  predicate BaseRecordsMatch(ts: seq<Table>, rs: seq<BaseRecord>)
    requires !MissingCol1(ts)
  {
    var a := AllAnchors(ts);
    |rs| == |a| && forall k | 0 <= k < |rs| :: rs[k] == BaseBlockRecord(ts[a[k].table], a[k].row)
  }

  /** The body of the anchor loop for one anchor; `None` is the `KeyError` of a table without col_1. */
  method BaseExtractBlock(t: Table, i: nat) returns (r: Option<BaseRecord>)
    requires i < |t|
    ensures !HasColumn(t, 1) ==> r == None
    ensures HasColumn(t, 1) ==> r == Some(BaseBlockRecord(t, i))
  {
    var hi := FixedWindowEnd(|t|, i);
    if !HasColumn(t, 1) {
      return None;
    }
    var col1 := Strip(JoinSpaces(ColumnCells(t, i, hi, 1)));
    var container := ContainerNumber(col1);
    var description := Description(col1);
    var col12 := ColumnText(t, i, hi, 12);
    var commodity := CommodityCode(col12);
    var gross := GrossMass(col12);
    r := Some(BaseRecord(container, description, commodity, gross));
  }

  /** The records of one table's anchors, in row order. */
  function BaseTableRecords(t: Table): (rs: seq<BaseRecord>)
    requires HasColumn(t, 1)
    ensures |rs| == |AnchorRows(t)|
  {
    var rows := AnchorRows(t);
    seq(|rows|, k requires 0 <= k < |rows| => BaseBlockRecord(t, rows[k]))
  }

  /** The `j`-th record of a table is that of its `j`-th anchor row. */
  lemma BaseTableRecordAt(t: Table, j: nat)
    requires HasColumn(t, 1) && j < |AnchorRows(t)|
    ensures BaseTableRecords(t)[j] == BaseBlockRecord(t, AnchorRows(t)[j])
  {
  }

  /** The inner loop over one table's anchors, appending to `all`. */
  method BaseExtractTable(t: Table, all: seq<BaseRecord>) returns (r: Option<seq<BaseRecord>>)
    ensures AnchorRows(t) != [] && !HasColumn(t, 1) ==> r == None
    ensures AnchorRows(t) == [] ==> r == Some(all)
    ensures HasColumn(t, 1) ==> r == Some(all + BaseTableRecords(t))
  {
    var rows := AnchorRows(t);
    var acc := all;
    for j := 0 to |rows|
      invariant j > 0 ==> HasColumn(t, 1)
      invariant !HasColumn(t, 1) ==> acc == all
      invariant HasColumn(t, 1) ==> acc == all + BaseTableRecords(t)[..j]
    {
      var b := BaseExtractBlock(t, rows[j]);
      if b.None? {
        return None;
      }
      if HasColumn(t, 1) {
        AppendNext(all, BaseTableRecords(t), j);
      }
      acc := acc + [b.value];
    }
    if HasColumn(t, 1) {
      assert BaseTableRecords(t)[..|rows|] == BaseTableRecords(t);
    }
    return Some(acc);
  }

  /** The whole base extractor: the same outcomes as the extended one, with four-field records. */
  method BaseExtract(read: TableRead) returns (out: Outcome<BaseRecord>)
    ensures read.ReadError? ==> out == Failed(FailurePrefix + read.cause)
    ensures read.Tables? && MissingCol1(read.tables) ==> out == Failed(FailurePrefix + MissingColumnCause)
    ensures read.Tables? && !MissingCol1(read.tables) && AllAnchors(read.tables) == [] ==> out == NoData
    ensures read.Tables? && !MissingCol1(read.tables) && AllAnchors(read.tables) != [] ==>
      out.Data? && BaseRecordsMatch(read.tables, out.records)
  {
    if read.ReadError? {
      return Failed(FailurePrefix + read.cause);
    }
    var ts := read.tables;
    var all: seq<BaseRecord> := [];
    for ti := 0 to |ts|
      invariant !MissingCol1(ts[..ti])
      invariant BaseRecordsMatch(ts[..ti], all)
    {
      var next := BaseExtractTable(ts[ti], all);
      if next.None? {
        assert AnchorRows(ts[ti]) != [] && !HasColumn(ts[ti], 1);
        return Failed(FailurePrefix + MissingColumnCause);
      }
      NoMissingExtend(ts, ti);
      BaseRecordsExtend(ts, ti, all, next.value);
      all := next.value;
    }
    assert ts[..|ts|] == ts;
    if |all| == 0 {
      return NoData;
    }
    return Data(all);
  }

  /** Appending table `ti`'s records, in its anchors' order, extends the correspondence. */
  lemma BaseRecordsExtend(ts: seq<Table>, ti: nat, before: seq<BaseRecord>, all: seq<BaseRecord>)
    requires ti < |ts| && !MissingCol1(ts[..ti]) && !MissingCol1(ts[..ti + 1])
    requires BaseRecordsMatch(ts[..ti], before)
    requires AnchorRows(ts[ti]) == [] ==> all == before
    requires HasColumn(ts[ti], 1) ==> all == before + BaseTableRecords(ts[ti])
    ensures BaseRecordsMatch(ts[..ti + 1], all)
  {
    var a := AllAnchors(ts[..ti]);
    var rows := AnchorRows(ts[ti]);
    var b := AllAnchors(ts[..ti + 1]);
    AllAnchorsSplit(ts, ti);
    assert b == a + AnchorsOf(ti, rows);
    assert rows != [] ==> HasColumn(ts[ti], 1) by {
      assert ts[..ti + 1][ti] == ts[ti];
    }
    forall k | 0 <= k < |all|
      ensures all[k] == BaseBlockRecord(ts[..ti + 1][b[k].table], b[k].row)
    {
      if k < |before| {
        var an := a[k];
        assert all[k] == before[k] == BaseBlockRecord(ts[..ti][an.table], an.row);
        assert b[k] == an;
        assert ts[..ti + 1][an.table] == ts[..ti][an.table];
      } else {
        var row := rows[k - |before|];
        assert b[k] == Anchor(ti, row);
        assert ts[..ti + 1][ti] == ts[ti];
        BaseTableRecordAt(ts[ti], k - |before|);
        assert all[k] == BaseTableRecords(ts[ti])[k - |before|];
      }
    }
  }

  /** Without col_12 the commodity code and the gross mass are both "". */
  lemma NoCol12NoCustoms(t: Table, i: nat)
    requires i < |t| && HasColumn(t, 1) && !HasColumn(t, 12)
    ensures BaseBlockRecord(t, i).commodityCode == ""
    ensures BaseBlockRecord(t, i).grossMass == ""
  {
    assert !MatchesAt(CommodityDigits, "", 0);
    assert !MatchesAt(GrossMassNumber, "", 0);
  }

  /**
   * Where the window's col_1 holds no "marks" header and its text no glued
   * "marks", the two variants read the same four fields.
   */
  lemma AgreesWithExtended(t: Table, i: nat)
    requires i < |t| && HasColumn(t, 1)
    requires var cells := ColumnCells(t, i, FixedWindowEnd(|t|, i), 1);
      (forall k | 0 <= k < |cells| :: !IsMarksHeader(cells[k]))
      && !HasMatch(GluedMarks, Strip(JoinSpaces(cells)))
    ensures var e := BlockRecord(t, i, 4);
      BaseBlockRecord(t, i) == BaseRecord(e.marks, e.description, e.commodityCode, e.grossMass)
  {
    var hi := FixedWindowEnd(|t|, i);
    FixedWindowIsDefault(|t|, i);
    var cells := ColumnCells(t, i, hi, 1);
    assert WithoutMarksHeaders(cells) == cells;
    assert Col1Text(cells) == Strip(JoinSpaces(cells));
    assert ColumnText(t, i, hi, 1) == Strip(JoinSpaces(cells));
  }
}
