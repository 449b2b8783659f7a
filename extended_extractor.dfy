/**
 * `extract_filtered_data_with_following_rows` (debug.py:84-171): for every
 * anchor row of every table, the window of `rowsAfter` following rows is
 * cut out and five fields are read from its columns col_1, col_12 and
 * col_16.
 */
module ExtendedExtractor {
  import opened Text
  import opened Patterns
  import opened MarksFields
  import opened CustomsFields
  import opened Numbers
  import opened Grid

  /** One row of the result frame, field by field in its column order. */
  datatype Record = Record(
    marks: string,          // "Marks & Nosof Packages"
    description: string,    // "Description"
    commodityCode: string,  // "Commodity_Code"
    grossMass: string,      // "Gross_Mass"
    itemPrice: string)      // "Item_Price"

  /** `line.strip().lower() == "marks"`. */
  predicate IsMarksHeader(line: string) {
    var s := Strip(line);
    |s| == |MarksWord| && LabelAt(s, 0, MarksWord)
  }

  /** The col_1 lines without the "marks" headers, in their order. */
  function WithoutMarksHeaders(lines: seq<string>): (r: seq<string>)
    ensures |r| <= |lines|
    ensures forall l :: l in r <==> l in lines && !IsMarksHeader(l)
    ensures (forall k | 0 <= k < |lines| :: !IsMarksHeader(lines[k])) ==> r == lines
    decreases |lines|
  {
    if |lines| == 0 then []
    else
      var init := WithoutMarksHeaders(lines[..|lines| - 1]);
      var last := lines[|lines| - 1];
      assert lines == lines[..|lines| - 1] + [last];
      if IsMarksHeader(last) then init else init + [last]
  }

  /** The filter keeps order: filtering a concatenation is concatenating the filtered parts. */
  lemma {:induction false} WithoutMarksHeadersConcat(a: seq<string>, b: seq<string>)
    ensures WithoutMarksHeaders(a + b) == WithoutMarksHeaders(a) + WithoutMarksHeaders(b)
    decreases |b|
  {
    if |b| == 0 {
      assert a + b == a;
    } else {
      var init, last := b[..|b| - 1], b[|b| - 1];
      assert b == init + [last];
      assert a + b == (a + init) + [last];
      WithoutMarksHeadersSnoc(a + init, last);
      WithoutMarksHeadersSnoc(init, last);
      WithoutMarksHeadersConcat(a, init);
    }
  }

  /** One more line is kept at the end, unless it is a header. */
  lemma WithoutMarksHeadersSnoc(xs: seq<string>, l: string)
    ensures WithoutMarksHeaders(xs + [l]) == WithoutMarksHeaders(xs) + (if IsMarksHeader(l) then [] else [l])
  {
    assert (xs + [l])[..|xs|] == xs;
  }

  /** The text the marks parser sees: filtered, joined, stripped and with glued "marks" separated. */
  function Col1Text(lines: seq<string>): string {
    FixGluedMarks(Strip(JoinSpaces(WithoutMarksHeaders(lines))))
  }

  /** `if gross in nums: nums.remove(gross)`. */
  function WithoutGross(nums: seq<string>, gross: string): (r: seq<string>)
    ensures gross in nums ==> |r| == |nums| - 1 && multiset(r) == multiset(nums) - multiset{gross}
    ensures gross !in nums ==> r == nums
  {
    if gross in nums then RemoveFirst(nums, gross) else nums
  }

  /**
   * The item price used when col_16 gave none: the last of the numbers of
   * `col12 + " " + col16` once the first copy of the gross mass is gone.
   */
  function FallbackPrice(col12: string, col16: string, gross: string): (r: string)
    ensures r != "" ==> r in CleanedNumbers(col12 + " " + col16)
    ensures r != "" && multiset(CleanedNumbers(col12 + " " + col16))[gross] <= 1 ==> r != gross
    ensures r == SurvivingLast(CleanedNumbers(col12 + " " + col16), gross)
  {
    var combined := CleanedNumbers(col12 + " " + col16);
    LastWithoutGross(combined, gross);
    LastWithoutGrossIs(combined, gross);
    LastOr(WithoutGross(combined, gross))
  }

  /**
   * Which number is last once one copy of `gross` is removed, said without
   * the removal: the last number, unless it is the only copy of the gross
   * mass, in which case the one before it (or "" when there is none).
   */
  function SurvivingLast(nums: seq<string>, gross: string): string {
    if |nums| == 0 then ""
    else if nums[|nums| - 1] == gross && multiset(nums)[gross] == 1 then
      (if |nums| >= 2 then nums[|nums| - 2] else "")
    else nums[|nums| - 1]
  }

  /** Removing the first copy of the gross mass and taking the last number gives `SurvivingLast`. */
  lemma LastWithoutGrossIs(nums: seq<string>, gross: string)
    ensures LastOr(WithoutGross(nums, gross)) == SurvivingLast(nums, gross)
  {
    if gross in nums {
      var i := FirstIndex(nums, gross);
      assert WithoutGross(nums, gross) == nums[..i] + nums[i + 1..];
      LastAfterCut(nums, gross, i);
    } else if |nums| > 0 {
      assert nums[|nums| - 1] in nums;
    }
  }

  /** Cutting out the first copy of `gross`, at `i`, leaves `SurvivingLast` last. */
  lemma LastAfterCut(nums: seq<string>, gross: string, i: nat)
    requires i < |nums| && nums[i] == gross && gross !in nums[..i]
    ensures LastOr(nums[..i] + nums[i + 1..]) == SurvivingLast(nums, gross)
  {
    var n := |nums|;
    if i == n - 1 {
      assert nums == nums[..i] + [gross];
      assert multiset(nums) == multiset(nums[..i]) + multiset{gross};
      assert nums[..i] + nums[i + 1..] == nums[..i];
    } else {
      assert (nums[..i] + nums[i + 1..])[n - 2] == nums[n - 1];
      if nums[n - 1] == gross {
        assert nums == nums[..i] + [gross] + nums[i + 1..n - 1] + [gross];
        assert multiset(nums)[gross] >= 2 by {
          assert multiset(nums) == multiset(nums[..i]) + multiset{gross} + multiset(nums[i + 1..n - 1]) + multiset{gross};
        }
      }
    }
  }

  /** The last number left after the removal is one of the numbers, and not a gross mass that occurred once. */
  lemma LastWithoutGross(nums: seq<string>, gross: string)
    ensures var r := LastOr(WithoutGross(nums, gross));
      (r != "" ==> r in nums) && (r != "" && multiset(nums)[gross] <= 1 ==> r != gross)
  {
    var rest := WithoutGross(nums, gross);
    if |rest| > 0 {
      var r := rest[|rest| - 1];
      assert r in multiset(rest);
      if gross in nums {
        assert r in multiset(nums);
        if multiset(nums)[gross] <= 1 {
          assert multiset(rest)[gross] == 0;
        }
      }
    }
  }

  /** The record read from a window's col_1 lines and its col_12 and col_16 texts. */
  function WindowRecord(lines: seq<string>, col12: string, col16: string): (r: Record)
    ensures AllDigits(r.commodityCode)
    ensures r.grossMass == "" || IsDecimal(r.grossMass)
    ensures '\n' !in r.description
    ensures r.itemPrice != "" ==> r.itemPrice in CleanedNumbers(col12 + " " + col16) && !IsBoilerplate(r.itemPrice)
    ensures r.grossMass == GrossMass(col12)
    ensures CleanedNumbers(col16) != [] ==> r.itemPrice == ItemPrice(col16)
    ensures CleanedNumbers(col16) == [] ==> r.itemPrice == FallbackPrice(col12, col16, r.grossMass)
  {
    CleanedNumbersSeparated(col12, col16);
    var col1 := Col1Text(lines);
    var gross := GrossMass(col12);
    var price := ItemPrice(col16);
    Record(ContainerNumber(col1), Description(col1), CommodityCode(col12), gross,
      if price != "" then price else FallbackPrice(col12, col16, gross))
  }

  /** The record the window at anchor row `i` yields. */
  function BlockRecord(t: Table, i: nat, rowsAfter: int): (r: Record)
    requires i < |t| && HasColumn(t, 1)
    ensures !HasColumn(t, 12) ==> r.commodityCode == "" && r.grossMass == ""
    ensures !HasColumn(t, 12) && !HasColumn(t, 16) ==> r.itemPrice == ""
  {
    EmptyTextFields();
    var hi := WindowEnd(|t|, i, rowsAfter);
    WindowRecord(ColumnCells(t, i, hi, 1), ColumnText(t, i, hi, 12), ColumnText(t, i, hi, 16))
  }

  /** An empty column text yields no customs fields, no price and no fallback price. */
  lemma EmptyTextFields()
    ensures CommodityCode("") == "" && GrossMass("") == ""
    ensures ItemPrice("") == "" && FallbackPrice("", "", "") == ""
  {
    assert !MatchesAt(CommodityDigits, "", 0);
    assert !MatchesAt(GrossMassNumber, "", 0);
    assert NewlinesToSpaces("") == "";
    assert NewlinesToSpaces("" + " " + "") == " ";
    TokensSkip(" ");
    assert " "[1..] == "";
  }

  /** The records are those of the anchors, one each, in document order. */
  predicate RecordsMatch(ts: seq<Table>, rs: seq<Record>, rowsAfter: int)
    requires !MissingCol1(ts)
  {
    var a := AllAnchors(ts);
    |rs| == |a| && forall k | 0 <= k < |rs| :: rs[k] == BlockRecord(ts[a[k].table], a[k].row, rowsAfter)
  }

  /** The loop over the col_1 lines that keeps all but the "marks" headers. */
  method FilterMarksHeaders(lines: seq<string>) returns (filtered: seq<string>)
    ensures filtered == WithoutMarksHeaders(lines)
  {
    filtered := [];
    for k := 0 to |lines|
      invariant filtered == WithoutMarksHeaders(lines[..k])
    {
      assert lines[..k + 1] == lines[..k] + [lines[k]];
      if IsMarksHeader(lines[k]) {
        continue;
      }
      filtered := filtered + [lines[k]];
    }
    assert lines[..|lines|] == lines;
  }

  /** The fallback branch, with `combined_nums.remove(gross_mass)` done on the local list. */
  method Fallback(col12: string, col16: string, gross: string) returns (price: string)
    ensures price == FallbackPrice(col12, col16, gross)
  {
    price := "";
    var combined := ParseAllNumbers(col12 + " " + col16);
    ghost var nums := combined;
    if |combined| > 0 {
      if gross in combined {
        combined := RemoveFirst(combined, gross);
      }
      assert combined == WithoutGross(nums, gross);
      if |combined| > 0 {
        price := combined[|combined| - 1];
      }
    }
  }

  /** The body of the anchor loop for one anchor; `None` is the `KeyError` of a table without col_1. */
  method ExtractBlock(t: Table, i: nat, rowsAfter: int) returns (r: Option<Record>)
    requires i < |t|
    ensures !HasColumn(t, 1) ==> r == None
    ensures HasColumn(t, 1) ==> r == Some(BlockRecord(t, i, rowsAfter))
  {
    var hi := WindowEnd(|t|, i, rowsAfter);
    if !HasColumn(t, 1) {
      return None;
    }
    var filtered := FilterMarksHeaders(ColumnCells(t, i, hi, 1));
    var col1 := Strip(JoinSpaces(filtered));
    col1 := FixGluedMarks(col1);
    var container := ContainerNumber(col1);
    var description := Description(col1);
    var col12 := ColumnText(t, i, hi, 12);
    var commodity := CommodityCode(col12);
    var gross := GrossMass(col12);
    var col16 := ColumnText(t, i, hi, 16);
    var price := ItemPrice(col16);
    if price == "" {
      price := Fallback(col12, col16, gross);
    }
    r := Some(Record(container, description, commodity, gross, price));
  }

  /** The records of one table's anchors, in row order. */
  function TableRecords(t: Table, rowsAfter: int): (rs: seq<Record>)
    requires HasColumn(t, 1)
    ensures |rs| == |AnchorRows(t)|
  {
    var rows := AnchorRows(t);
    seq(|rows|, k requires 0 <= k < |rows| => BlockRecord(t, rows[k], rowsAfter))
  }

  /**
   * The inner loop over one table's anchors, appending to `all`; `None` when
   * the table has anchors but no col_1.
   */
  method ExtractTable(t: Table, rowsAfter: int, all: seq<Record>) returns (r: Option<seq<Record>>)
    ensures AnchorRows(t) != [] && !HasColumn(t, 1) ==> r == None
    ensures AnchorRows(t) == [] ==> r == Some(all)
    ensures HasColumn(t, 1) ==> r == Some(all + TableRecords(t, rowsAfter))
  {
    var rows := AnchorRows(t);
    var acc := all;
    for j := 0 to |rows|
      invariant j > 0 ==> HasColumn(t, 1)
      invariant !HasColumn(t, 1) ==> acc == all
      invariant HasColumn(t, 1) ==> acc == all + TableRecords(t, rowsAfter)[..j]
    {
      var b := ExtractBlock(t, rows[j], rowsAfter);
      if b.None? {
        return None;
      }
      if HasColumn(t, 1) {
        AppendNext(all, TableRecords(t, rowsAfter), j);
      }
      acc := acc + [b.value];
    }
    if HasColumn(t, 1) {
      assert TableRecords(t, rowsAfter)[..|rows|] == TableRecords(t, rowsAfter);
    }
    return Some(acc);
  }

  /**
   * The whole extractor. A failing reader and a table with anchors but no
   * col_1 end in the wrapped error; otherwise the records follow the anchors
   * one to one, and no anchor at all is "no data".
   */
  method Extract(read: TableRead, rowsAfter: int) returns (out: Outcome<Record>)
    ensures read.ReadError? ==> out == Failed(FailurePrefix + read.cause)
    ensures read.Tables? && MissingCol1(read.tables) ==> out == Failed(FailurePrefix + MissingColumnCause)
    ensures read.Tables? && !MissingCol1(read.tables) && AllAnchors(read.tables) == [] ==> out == NoData
    ensures read.Tables? && !MissingCol1(read.tables) && AllAnchors(read.tables) != [] ==>
      out.Data? && RecordsMatch(read.tables, out.records, rowsAfter)
  {
    if read.ReadError? {
      return Failed(FailurePrefix + read.cause);
    }
    var ts := read.tables;
    var all: seq<Record> := [];
    for ti := 0 to |ts|
      invariant !MissingCol1(ts[..ti])
      invariant RecordsMatch(ts[..ti], all, rowsAfter)
    {
      var next := ExtractTable(ts[ti], rowsAfter, all);
      if next.None? {
        assert AnchorRows(ts[ti]) != [] && !HasColumn(ts[ti], 1);
        return Failed(FailurePrefix + MissingColumnCause);
      }
      NoMissingExtend(ts, ti);
      RecordsExtend(ts, ti, all, next.value, rowsAfter);
      all := next.value;
    }
    assert ts[..|ts|] == ts;
    if |all| == 0 {
      return NoData;
    }
    return Data(all);
  }

  /** Appending table `ti`'s records, in its anchors' order, extends the correspondence. */
  lemma RecordsExtend(ts: seq<Table>, ti: nat, before: seq<Record>, all: seq<Record>, rowsAfter: int)
    requires ti < |ts| && !MissingCol1(ts[..ti]) && !MissingCol1(ts[..ti + 1])
    requires RecordsMatch(ts[..ti], before, rowsAfter)
    requires AnchorRows(ts[ti]) == [] ==> all == before
    requires HasColumn(ts[ti], 1) ==> all == before + TableRecords(ts[ti], rowsAfter)
    ensures RecordsMatch(ts[..ti + 1], all, rowsAfter)
  {
    var a := AllAnchors(ts[..ti]);
    var rows := AnchorRows(ts[ti]);
    var b := AllAnchors(ts[..ti + 1]);
    AllAnchorsSplit(ts, ti);
    assert b == a + AnchorsOf(ti, rows);
    assert rows != [] ==> HasColumn(ts[ti], 1) by {
      assert ts[..ti + 1][ti] == ts[ti];
    }
    forall k | 0 <= k < |all|
      ensures all[k] == BlockRecord(ts[..ti + 1][b[k].table], b[k].row, rowsAfter)
    {
      if k < |before| {
        assert all[k] == before[k];
        assert b[k] == a[k];
        assert ts[..ti + 1][a[k].table] == ts[..ti][a[k].table];
      } else {
        assert b[k] == Anchor(ti, rows[k - |before|]);
        assert all[k] == TableRecords(ts[ti], rowsAfter)[k - |before|];
      }
    }
  }

  /** When col_16 has no numbers, the fallback reads col_12's numbers alone. */
  lemma FallbackUsesCol12(col12: string, col16: string, gross: string)
    requires ItemPrice(col16) == ""
    ensures FallbackPrice(col12, col16, gross) == LastOr(WithoutGross(CleanedNumbers(col12), gross))
  {
    CleanedNumbersSeparated(col12, col16);
    assert CleanedNumbers(col12) + CleanedNumbers(col16) == CleanedNumbers(col12);
  }

  /** The record depends only on the rows of its window and on which columns the table has. */
  lemma BlockLocal(t: Table, u: Table, i: nat, rowsAfter: int)
    requires i < |t| && i < |u| && HasColumn(t, 1) && Width(t) == Width(u)
    requires WindowEnd(|t|, i, rowsAfter) == WindowEnd(|u|, i, rowsAfter)
    requires forall m | i <= m < WindowEnd(|t|, i, rowsAfter) :: t[m] == u[m]
    ensures BlockRecord(t, i, rowsAfter) == BlockRecord(u, i, rowsAfter)
  {
    var hi := WindowEnd(|t|, i, rowsAfter);
    ColumnCellsLocal(t, u, i, hi, 1);
    assert ColumnText(t, i, hi, 12) == ColumnText(u, i, hi, 12) by {
      ColumnCellsLocal(t, u, i, hi, 12);
    }
    assert ColumnText(t, i, hi, 16) == ColumnText(u, i, hi, 16) by {
      ColumnCellsLocal(t, u, i, hi, 16);
    }
  }

  /** A line that strips to "marks" in any case is a header. */
  lemma MarksHeaderOf(gap: string, word: string, gap2: string)
    requires forall k | 0 <= k < |gap| :: IsSpace(gap[k])
    requires forall k | 0 <= k < |gap2| :: IsSpace(gap2[k])
    requires |word| == |MarksWord| && LabelAt(word, 0, MarksWord)
    ensures IsMarksHeader(gap + word + gap2)
  {
    assert !IsSpace(word[0]) && !IsSpace(word[|word| - 1]) by {
      assert MarksWord[0] == 'm' && MarksWord[4] == 's';
      assert Lower(word[0]) == Lower(MarksWord[0]) && Lower(word[4]) == Lower(MarksWord[4]);
    }
    StripOfPadded(gap, word, gap2);
  }

  /** A marks header line before a glued container line leaves only the container. */
  lemma HeaderThenGlued(header: string, glued: string)
    requires IsMarksHeader(header) && !IsMarksHeader(glued)
    ensures WithoutMarksHeaders([header, glued]) == [glued]
  {
    assert [header, glued][..1] == [header];
    assert [header][..0] == [];
  }

  /** An example of the col_1 handling: the lines "MARKS" and "1Z999AA10123456785marks" give that container. */
  lemma GluedWindowExample(header: string, glued: string)
    requires header == "MARKS" && glued == "1Z999AA10123456785marks"
    ensures ContainerNumber(Col1Text([header, glued])) == "1Z999AA10123456785"
  {
    assert header == "" + header + "";
    assert LabelAt(header, 0, MarksWord);
    MarksHeaderOf("", header, "");
    assert |Strip(glued)| != |MarksWord| by {
      assert glued == "" + glued + "";
      StripOfPadded("", glued, "");
    }
    HeaderThenGlued(header, glued);
    assert JoinSpaces([glued]) == glued;
    assert glued == "" + glued + "";
    StripOfPadded("", glued, "");
    GluedExample(glued);
  }
}
