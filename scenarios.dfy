/** Worked examples of the whole run on small concrete inputs. */
module Scenarios {
  import opened Base
  import opened Text
  import opened Cells
  import opened OrderedDict
  import opened RowFilter
  import opened ReferenceIndex
  import opened Ranking
  import opened Reconcile
  import opened Pipeline

  function FundRow(name: string, value: int): Row
  {
    map[LabelColumn := Str(name), "Jan" := Num(value)]
  }

  /** A name without the letter t never reads as a total. */
  lemma NoLetterT(name: string)
    requires forall i :: 0 <= i < |name| ==> name[i] != 't' && name[i] != 'T'
    ensures !Contains(Lower(name), "total")
  {
    if Contains(Lower(name), "total") {
      ContainsFirstChar(Lower(name), "total");
      assert false;
    }
  }

  /** Two funds and a total line, ranked in a single value column. */
  function Sample(): Table
  {
    Table(["Category", LabelColumn, "Jan"], [FundRow("FundA", 100), FundRow("FundB", 200), FundRow("Total", 300)])
  }

  lemma SamplePartition()
    ensures Totals(Sample().rows) == [FundRow("Total", 300)]
    ensures Values(Sample().rows) == [FundRow("FundA", 100), FundRow("FundB", 200)]
  {
    assert Lower("Total") == "total";
    assert Contains(Lower("Total"), "total");
    NoLetterT("FundA");
    NoLetterT("FundB");
    var rows := Sample().rows;
    assert rows[1..] == [FundRow("FundB", 200), FundRow("Total", 300)];
    assert rows[1..][1..] == [FundRow("Total", 300)];
  }

  lemma SampleColumns()
    ensures ValueColumns(Sample().columns) == ["Jan"]
  {
    var columns := Sample().columns;
    assert columns[1..] == [LabelColumn, "Jan"] && columns[1..][1..] == ["Jan"];
    assert KeepColumns(["Jan"], "Category") == ["Jan"];
    assert KeepColumns([LabelColumn, "Jan"], "Category") == ["Jan"];
  }

  lemma SampleRanking()
    ensures Ranked([FundRow("FundA", 100), FundRow("FundB", 200)], "Jan")
      == [Entry(Str("FundB"), 200), Entry(Str("FundA"), 100)]
  {
    var rows := [FundRow("FundA", 100), FundRow("FundB", 200)];
    assert rows[1..] == [FundRow("FundB", 200)];
    assert Candidates(rows, "Jan") == [Entry(Str("FundA"), 100), Entry(Str("FundB"), 200)];
  }

  function SampleSheet(): OutSheet
  {
    OutSheet("Jan", [
      RankedRow(1, Str("FundB"), 200, 0),
      RankedRow(2, Str("FundA"), 100, 0),
      SummaryRow(Str("Total"), Num(300))])
  }

  lemma SampleRows()
    ensures RankedRows([Entry(Str("FundB"), 200), Entry(Str("FundA"), 100)], [0, 0])
      + SummaryRows([FundRow("Total", 300)], "Jan") == SampleSheet().rows
  {
    var totals := [FundRow("Total", 300)];
    assert At(totals[0], LabelColumn) == Str("Total");
    assert At(totals[0], "Jan") == Num(300);
    assert SummaryRows(totals, "Jan") == [SummaryRow(Str("Total"), Num(300))];
  }

  lemma SampleColumnSheet()
    ensures ColumnSheet([FundRow("FundA", 100), FundRow("FundB", 200)], [FundRow("Total", 300)], "Jan", NoReference())
      == Success(SampleSheet())
  {
    SampleRanking();
    SampleChanges();
    SampleRows();
    assert SheetTitle("Jan") == "Jan";
  }

  /** Without a prior workbook both funds keep a change of 0. */
  lemma SampleChanges()
    ensures ColumnChanges([Entry(Str("FundB"), 200), Entry(Str("FundA"), 100)], "Jan", NoReference())
      == Success([0, 0])
  {
    assert MatchedSheet(NoReference(), "Jan").None?;
    assert Zeros(2) == [0, 0];
  }

  lemma SampleSheets()
    ensures Sheets([FundRow("FundA", 100), FundRow("FundB", 200)], [FundRow("Total", 300)], ["Jan"], NoReference())
      == Success([SampleSheet()])
  {
    SampleColumnSheet();
    var values := [FundRow("FundA", 100), FundRow("FundB", 200)];
    var totals := [FundRow("Total", 300)];
    SheetsSpec(values, totals, ["Jan"], NoReference());
    var all := Sheets(values, totals, ["Jan"], NoReference());
    assert all.Success? && |all.value| == 1 && all.value[0] == SampleSheet();
    assert all.value == [SampleSheet()];
  }

  /** Without a prior workbook FundB ranks first, FundA second, both with change 0, and the
      total line follows with its value and no change. */
  lemma SampleWithoutPrior()
    ensures Run(Sample(), None) == Success([SampleSheet()])
  {
    SamplePartition();
    SampleColumns();
    SampleSheets();
    var t := Sample();
    var values := [FundRow("FundA", 100), FundRow("FundB", 200)];
    var totals := [FundRow("Total", 300)];
    var index := NoReference();
    assert Partition(t) == Success((totals, values));
    assert LoadIndex(None) == Success(index);
  }

  /** Prior sheets "Sheet1" and "Sheet2" anchored at "Equity Fund" and "Debt": the column
      "Equity Fund - Growth" resolves to the first, whose anchor its title contains. */
  lemma EquityResolvesFirst()
    ensures var anchors := Put(Put(Empty(), "Sheet1", "Equity Fund"), "Sheet2", "Debt");
      Resolve(anchors, SheetTitle("Equity Fund - Growth")) == Some("Sheet1")
  {
    var anchors := Put(Put(Empty(), "Sheet1", "Equity Fund"), "Sheet2", "Debt");
    assert anchors.keys == ["Sheet1", "Sheet2"];
    assert SheetTitle("Equity Fund - Growth") == "Equity Fund - Growth";
    assert Lower("Equity Fund") == "equity fund";
    assert Lower("Equity Fund - Growth") == "equity fund - growth";
    assert "equity fund" <= "equity fund - growth";
    assert AnchorMatches("Equity Fund", "Equity Fund - Growth");
  }

  /** FundB was ranked 2nd and FundA 1st before; now FundB is 1st and FundA 2nd, so FundB
      gains one place and FundA loses one. */
  lemma SwappedRanks()
    ensures var m := Put(Put(Empty(), "FundA", Num(1)), "FundB", Num(2));
      ApplyChanges([Entry(Str("FundB"), 200), Entry(Str("FundA"), 100)], m, [0, 0]) == Success([1, -1])
  {
    var m := Put(Put(Empty(), "FundA", Num(1)), "FundB", Num(2));
    var ranked := [Entry(Str("FundB"), 200), Entry(Str("FundA"), 100)];
    assert PriorRank(m, ranked[0]) == Some(Num(2));
    assert PriorRank(m, ranked[1]) == Some(Num(1));
    assert [0, 0][0 := 1][1 := -1] == [1, -1];
  }

  /** "fundc" is not a key, but "FundC" is equal to it ignoring case, so its prior rank 3 is
      used: ranked 1st now, it gains two places. */
  lemma CaseInsensitiveFallback()
    ensures var m := Put(Empty(), "FundC", Num(3));
      ApplyChanges([Entry(Str("fundc"), 50)], m, [0]) == Success([2])
  {
    var m := Put(Empty(), "FundC", Num(3));
    assert m.keys == ["FundC"];
    assert "fundc" !in m.vals;
    assert Lower("FundC") == "fundc" == Lower("fundc");
    assert Lookup(m, "fundc") == Some(Num(3));
    assert [0][0 := 2] == [2];
  }
}
