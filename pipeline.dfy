/** `process_excel` (lines 15-131): one ranked, reconciled table per value column. */
module Pipeline {
  import opened Base
  import opened Cells
  import opened OrderedDict
  import opened RowFilter
  import opened ReferenceIndex
  import opened Ranking
  import opened Reconcile

  /** A row of an output table: a ranked fund, or a summary row appended after them. */
  datatype OutRow =
    | RankedRow(rank: nat, fund: Cell, value: int, change: int)
    | SummaryRow(fund: Cell, cell: Cell)

  /** The 'Rank Change' cell of a row: summary rows carry None (line 130). */
  function ChangeOf(r: OutRow): Option<int>
  {
    match r
    case RankedRow(_, _, _, c) => Some(c)
    case SummaryRow(_, _) => None
  }

  /** One output sheet: its title and its rows in display order. */
  datatype OutSheet = OutSheet(title: string, rows: seq<OutRow>)

  function KeepColumns(columns: seq<string>, first: string): (r: seq<string>)
    ensures forall c :: c in r <==> c in columns && c != first && c != LabelColumn
  {
    if columns == [] then []
    else
      var head := if columns[0] != first && columns[0] != LabelColumn then [columns[0]] else [];
      head + KeepColumns(columns[1..], first)
  }

  /** Line 73: every column except the first one and the label column, in order. */
  function ValueColumns(columns: seq<string>): (r: seq<string>)
    ensures forall c :: c in r <==> c in columns && c != columns[0] && c != LabelColumn
  {
    if columns == [] then [] else KeepColumns(columns, columns[0])
  }

  /** `x` occurs in `columns` at an earlier position than `y`. */
  ghost predicate Before(columns: seq<string>, x: string, y: string)
  {
    exists p, q :: 0 <= p < q < |columns| && columns[p] == x && columns[q] == y
  }

  /** A kept column is a column of the input. */
  lemma KeptIsColumn(columns: seq<string>, first: string, c: string)
    requires c in KeepColumns(columns, first)
    ensures exists q :: 0 <= q < |columns| && columns[q] == c
  {
    var q :| 0 <= q < |columns| && columns[q] == c;
  }

  /** Filtering keeps the order of the columns it keeps. */
  lemma {:induction false} KeepColumnsOrder(columns: seq<string>, first: string)
    ensures forall i, j :: 0 <= i < j < |KeepColumns(columns, first)| ==>
      Before(columns, KeepColumns(columns, first)[i], KeepColumns(columns, first)[j])
    decreases |columns|
  {
    if columns != [] {
      var r, rest := KeepColumns(columns, first), KeepColumns(columns[1..], first);
      KeepColumnsOrder(columns[1..], first);
      var kept := columns[0] != first && columns[0] != LabelColumn;
      assert r == (if kept then [columns[0]] else []) + rest;
      forall i, j | 0 <= i < j < |r|
        ensures Before(columns, r[i], r[j])
      {
        if kept && i == 0 {
          assert r[j] == rest[j - 1] && rest[j - 1] in rest;
          KeptIsColumn(columns[1..], first, r[j]);
          var q :| 0 <= q < |columns[1..]| && columns[1..][q] == r[j];
          assert columns[0] == r[i] && columns[q + 1] == r[j];
        } else {
          var d := if kept then 1 else 0;
          assert Before(columns[1..], rest[i - d], rest[j - d]);
          var p, q :| 0 <= p < q < |columns[1..]| && columns[1..][p] == rest[i - d] && columns[1..][q] == rest[j - d];
          assert columns[p + 1] == r[i] && columns[q + 1] == r[j];
        }
      }
    }
  }

  /** Line 73 keeps the header order: an earlier value column stands earlier in the input.
      With the distinct headers a table has, this and the membership of `ValueColumns` fix
      the sequence. */
  lemma ValueColumnsOrder(columns: seq<string>)
    ensures forall i, j :: 0 <= i < j < |ValueColumns(columns)| ==>
      Before(columns, ValueColumns(columns)[i], ValueColumns(columns)[j])
  {
    if columns != [] {
      KeepColumnsOrder(columns, columns[0]);
    }
  }

  /** Line 90: every ranked row starts with a change of 0. */
  function Zeros(n: nat): (z: seq<int>)
    ensures |z| == n && forall i :: 0 <= i < n ==> z[i] == 0
  {
    seq(n, _ => 0)
  }

  /** Lines 92-104: the prior sheet whose rank map reconciles `column`, if any. Nothing is
      looked up when no prior sheet has a rank map; the first sheet whose anchor matches the
      sheet title is used only when it is non-empty and has a rank map. */
  function MatchedSheet(index: Index, column: string): (r: Option<string>)
    requires index.Valid()
    ensures r.Some? ==> r.value != "" && r.value in index.ranks
  {
    if |index.ranks| == 0 then None
    else
      match Resolve(index.anchors, SheetTitle(column))
      case Some(sheet) => if sheet != "" && sheet in index.ranks then Some(sheet) else None
      case None => None
  }

  /** Lines 96-104: nothing is resolved while no prior sheet has a rank map; otherwise the
      FIRST sheet whose anchor matches the title is the only candidate, and it is used exactly
      when its name is non-empty and it has a rank map; a later matching sheet is never tried. */
  lemma MatchedSheetSpec(index: Index, column: string)
    requires index.Valid()
    ensures |index.ranks| == 0 ==> MatchedSheet(index, column).None?
    ensures (forall i :: 0 <= i < |index.anchors.keys| ==>
               !AnchorMatches(index.anchors.vals[index.anchors.keys[i]], SheetTitle(column)))
            ==> MatchedSheet(index, column).None?
    ensures forall i :: FirstMatchAt(index.anchors.keys, index.anchors.vals, SheetTitle(column), i) ==>
      MatchedSheet(index, column)
        == if |index.ranks| > 0 && index.anchors.keys[i] != "" && index.anchors.keys[i] in index.ranks
           then Some(index.anchors.keys[i]) else None
    ensures MatchedSheet(index, column).Some? ==>
      exists i :: FirstMatchAt(index.anchors.keys, index.anchors.vals, SheetTitle(column), i)
        && index.anchors.keys[i] == MatchedSheet(index, column).value
  {
    var keys, vals, title := index.anchors.keys, index.anchors.vals, SheetTitle(column);
    var found := Resolve(index.anchors, title);
    forall i | FirstMatchAt(keys, vals, title, i)
      ensures MatchedSheet(index, column)
        == if |index.ranks| > 0 && keys[i] != "" && keys[i] in index.ranks then Some(keys[i]) else None
    {
      assert found.Some?;
      var j :| FirstMatchAt(keys, vals, title, j) && keys[j] == found.value;
      FirstMatchAtUnique(keys, vals, title, i, j);
    }
  }

  /** Lines 89-124: the 'Rank Change' column of the ranked rows: 0 everywhere, then
      reconciled against the matched sheet's rank map, if there is one. */
  function ColumnChanges(ranked: seq<Entry>, column: string, index: Index): (r: Result<seq<int>>)
    requires index.Valid()
    ensures r.Success? ==> |r.value| == |ranked|
    ensures r.Failure? ==> MatchedSheet(index, column).Some? && r.error.RankNotNumeric?
  {
    match MatchedSheet(index, column)
    case Some(sheet) => ApplyChanges(ranked, index.ranks[sheet], Zeros(|ranked|))
    case None => Success(Zeros(|ranked|))
  }

  /** Lines 81-90: rank `i + 1` for the fund at position `i`, with its change. */
  function RankedRows(ranked: seq<Entry>, changes: seq<int>): seq<OutRow>
    requires |changes| == |ranked|
  {
    seq(|ranked|, i requires 0 <= i < |ranked| => RankedRow(i + 1, ranked[i].fund, ranked[i].value, changes[i]))
  }

  /** Lines 127-130: the total rows, label and value only. */
  function SummaryRows(totals: seq<Row>, column: string): seq<OutRow>
  {
    seq(|totals|, i requires 0 <= i < |totals| => SummaryRow(At(totals[i], LabelColumn), At(totals[i], column)))
  }

  /** Lines 74-131 for one value column. */
  function ColumnSheet(values: seq<Row>, totals: seq<Row>, column: string, index: Index): (r: Result<OutSheet>)
    requires index.Valid()
    ensures r.Success? <==> ColumnChanges(Ranked(values, column), column, index).Success?
    ensures r.Success? ==> r.value.title == SheetTitle(column)
    ensures r.Failure? ==> r.error.RankNotNumeric?
  {
    var ranked := Ranked(values, column);
    match ColumnChanges(ranked, column, index)
    case Failure(e) => Failure(e)
    case Success(changes) =>
      Success(OutSheet(SheetTitle(column), RankedRows(ranked, changes) + SummaryRows(totals, column)))
  }

  /** Lines 74-131 for one value column, with the rank changes held in an array that
      reconciliation overwrites in place. */
  method ProcessColumn(values: seq<Row>, totals: seq<Row>, column: string, index: Index)
    returns (r: Result<OutSheet>)
    requires index.Valid()
    ensures r == ColumnSheet(values, totals, column, index)
  {
    var ranked := Ranked(values, column);
    var change := new int[|ranked|](_ => 0);
    assert change[..] == Zeros(|ranked|);
    if |index.ranks| > 0 {
      var sheet := ResolveSheet(index.anchors, column);
      if sheet.Some? && sheet.value != "" && sheet.value in index.ranks {
        var err := ReconcileInPlace(ranked, index.ranks[sheet.value], change);
        if err.Some? {
          return Failure(err.value);
        }
      }
    }
    r := Success(OutSheet(SheetTitle(column), RankedRows(ranked, change[..]) + SummaryRows(totals, column)));
  }

  /** The sheets built so far, followed by the outcome of the remaining columns. */
  function Prepend(done: seq<OutSheet>, rest: Result<seq<OutSheet>>): Result<seq<OutSheet>>
  {
    match rest
    case Failure(e) => Failure(e)
    case Success(s) => Success(done + s)
  }

  /** The outcomes of the columns in order, stopping at the first failure. */
  function Collect(outcomes: seq<Result<OutSheet>>): (r: Result<seq<OutSheet>>)
    ensures r.Success? ==> |r.value| == |outcomes|
  {
    if outcomes == [] then Success([])
    else
      match outcomes[0]
      case Failure(e) => Failure(e)
      case Success(sheet) => Prepend([sheet], Collect(outcomes[1..]))
  }

  /** The sheets of the given columns, in order; the first failing column aborts. */
  function Sheets(values: seq<Row>, totals: seq<Row>, columns: seq<string>, index: Index): Result<seq<OutSheet>>
    requires index.Valid()
  {
    Collect(seq(|columns|, i requires 0 <= i < |columns| => ColumnSheet(values, totals, columns[i], index)))
  }

  /** Lines 15-131: the whole run, as the workbook it would save or the error that stops it. */
  function Run(t: Table, prior: Option<PriorBook>): (r: Result<seq<OutSheet>>)
    ensures LabelColumn !in t.columns ==> r == Failure(MissingLabelColumn)
    ensures r.Success? ==> |r.value| == |ValueColumns(t.columns)|
  {
    match Partition(t)
    case Failure(e) => Failure(e)
    case Success(parts) =>
      match LoadIndex(prior)
      case Failure(e) => Failure(e)
      case Success(index) => Sheets(parts.1, parts.0, ValueColumns(t.columns), index)
  }

  /** One step of the column loop: a failing column ends the run with its error, a successful
      one is appended to the sheets built so far. */
  lemma CollectStep(outcomes: seq<Result<OutSheet>>, i: nat, done: seq<OutSheet>)
    requires i < |outcomes|
    ensures outcomes[i].Failure? ==> Prepend(done, Collect(outcomes[i..])) == Failure(outcomes[i].error)
    ensures outcomes[i].Success? ==>
      Prepend(done, Collect(outcomes[i..])) == Prepend(done + [outcomes[i].value], Collect(outcomes[i + 1..]))
  {
    assert outcomes[i..][1..] == outcomes[i + 1..];
    var rest := Collect(outcomes[i + 1..]);
    if outcomes[i].Success? && rest.Success? {
      assert done + ([outcomes[i].value] + rest.value) == (done + [outcomes[i].value]) + rest.value;
    }
  }

  /** Lines 74-131: the loop over the value columns; the first failing column aborts. */
  method ProcessColumns(values: seq<Row>, totals: seq<Row>, columns: seq<string>, index: Index)
    returns (r: Result<seq<OutSheet>>)
    requires index.Valid()
    ensures r == Sheets(values, totals, columns, index)
  {
    ghost var outcomes := seq(|columns|, i requires 0 <= i < |columns| => ColumnSheet(values, totals, columns[i], index));
    ghost var all := Collect(outcomes);
    assert outcomes[0..] == outcomes;
    if all.Success? {
      assert [] + all.value == all.value;
    }
    var done: seq<OutSheet> := [];
    var i := 0;
    while i < |columns|
      invariant 0 <= i <= |columns|
      invariant all == Prepend(done, Collect(outcomes[i..]))
    {
      var sheet := ProcessColumn(values, totals, columns[i], index);
      CollectStep(outcomes, i, done);
      if sheet.Failure? {
        return Failure(sheet.error);
      }
      done := done + [sheet.value];
      i := i + 1;
    }
    assert outcomes[i..] == [];
    assert done + [] == done;
    r := Success(done);
  }

  /** `process_excel`: check the label column, split off the total rows, load the reference
      workbook, then build one sheet per value column. */
  method ProcessExcel(t: Table, prior: Option<PriorBook>) returns (r: Result<seq<OutSheet>>)
    ensures r == Run(t, prior)
  {
    if LabelColumn !in t.columns {
      return Failure(MissingLabelColumn);
    }
    var totals, values := Totals(t.rows), Values(t.rows);
    assert Partition(t) == Success((totals, values));
    var index := NoReference();
    if prior.Some? {
      var loaded := LoadReference(prior.value);
      if loaded.Failure? {
        return Failure(loaded.error);
      }
      index := loaded.value;
    }
    assert LoadIndex(prior) == Success(index);
    r := ProcessColumns(values, totals, ValueColumns(t.columns), index);
  }

  /** Lines 89-124: without a matched sheet every change is 0; with one, the fund at rank
      `j + 1` gets its prior rank minus `j + 1` when the rank map knows it (exactly or up to
      case) and 0 when it does not, and a non-numeric prior rank aborts the column. */
  lemma ColumnChangesSpec(ranked: seq<Entry>, column: string, index: Index)
    requires index.Valid()
    ensures MatchedSheet(index, column).None? ==> ColumnChanges(ranked, column, index) == Success(Zeros(|ranked|))
    ensures MatchedSheet(index, column).Some? ==>
      var m := index.ranks[MatchedSheet(index, column).value];
      && (ColumnChanges(ranked, column, index).Success? <==>
            forall j :: 0 <= j < |ranked| ==> !Unusable(PriorRank(m, ranked[j])))
      && (ColumnChanges(ranked, column, index).Success? ==>
            forall j :: 0 <= j < |ranked| ==>
              ColumnChanges(ranked, column, index).value[j] == ChangeAfter(ranked, m, 0, j))
      && (ColumnChanges(ranked, column, index).Failure? ==>
            exists j :: 0 <= j < |ranked| && Unusable(PriorRank(m, ranked[j]))
              && ColumnChanges(ranked, column, index).error == RankNotNumeric(FundName(ranked[j])))
  {
    if MatchedSheet(index, column).Some? {
      var m := index.ranks[MatchedSheet(index, column).value];
      ReconcileSpec(ranked, m, Zeros(|ranked|));
    }
  }

  /** From position `n` on, `rows` holds one summary row per total row, in order, with its
      label and its value in the column and no rank change. */
  predicate TotalsFrom(rows: seq<OutRow>, n: nat, totals: seq<Row>, column: string)
  {
    && n + |totals| <= |rows|
    && forall k :: 0 <= k < |totals| ==>
         rows[n + k] == SummaryRow(At(totals[k], LabelColumn), At(totals[k], column))
         && ChangeOf(rows[n + k]).None?
  }

  /** Lines 74-131: a column's sheet is titled by the truncated column name; its first rows
      rank the column's numeric funds 1, 2, ... by non-increasing value, holding exactly the
      candidate funds; the total rows follow in input order with no rank and no change. */
  lemma ColumnSheetShape(values: seq<Row>, totals: seq<Row>, column: string, index: Index)
    requires index.Valid()
    requires ColumnSheet(values, totals, column, index).Success?
    ensures var s := ColumnSheet(values, totals, column, index).value;
      var ranked := Ranked(values, column);
      var changes := ColumnChanges(ranked, column, index).value;
      var n := |ranked|;
      && s.title == SheetTitle(column)
      && n == |Candidates(values, column)| == |RankableRows(values, column)|
      && |s.rows| == n + |totals|
      && multiset(ranked) == multiset(Candidates(values, column))
      && (forall i :: 0 <= i < n ==>
            s.rows[i].RankedRow? && s.rows[i].rank == i + 1
            && Entry(s.rows[i].fund, s.rows[i].value) == ranked[i]
            && s.rows[i].change == changes[i])
      && (forall i, j :: 0 <= i < j < n ==> s.rows[i].value >= s.rows[j].value)
      && TotalsFrom(s.rows, n, totals, column)
  {
    var s := ColumnSheet(values, totals, column, index).value;
    var ranked := Ranked(values, column);
    var changes := ColumnChanges(ranked, column, index).value;
    assert s == OutSheet(SheetTitle(column), RankedRows(ranked, changes) + SummaryRows(totals, column));
    SheetShape(s, ranked, changes, totals, column);
    CandidatesLength(values, column);
    assert |ranked| == |Candidates(values, column)| by {
      assert |multiset(ranked)| == |multiset(Candidates(values, column))|;
    }
  }

  /** A sheet built from ranked entries and total rows lists the entries first, ranked
      1, 2, ... in the order given and each with its change, then the total rows with no
      change. */
  lemma SheetShape(s: OutSheet, ranked: seq<Entry>, changes: seq<int>, totals: seq<Row>, column: string)
    requires |changes| == |ranked| && NonIncreasing(ranked)
    requires s == OutSheet(SheetTitle(column), RankedRows(ranked, changes) + SummaryRows(totals, column))
    ensures var n := |ranked|;
      && s.title == SheetTitle(column)
      && |s.rows| == n + |totals|
      && (forall i :: 0 <= i < n ==>
            s.rows[i].RankedRow? && s.rows[i].rank == i + 1
            && Entry(s.rows[i].fund, s.rows[i].value) == ranked[i]
            && s.rows[i].change == changes[i])
      && (forall i, j :: 0 <= i < j < n ==> s.rows[i].value >= s.rows[j].value)
      && TotalsFrom(s.rows, n, totals, column)
  {
  }

  /** A column that is not reconciled keeps every rank change at 0. */
  lemma UnmatchedColumnKeepsZeros(values: seq<Row>, totals: seq<Row>, column: string, index: Index)
    requires index.Valid() && MatchedSheet(index, column).None?
    ensures ColumnSheet(values, totals, column, index).Success?
    ensures var s := ColumnSheet(values, totals, column, index).value;
      forall i :: 0 <= i < |s.rows| && s.rows[i].RankedRow? ==> s.rows[i].change == 0
  {
    ColumnChangesSpec(Ranked(values, column), column, index);
    var s := ColumnSheet(values, totals, column, index).value;
    var n := |Ranked(values, column)|;
    forall i | 0 <= i < |s.rows| && s.rows[i].RankedRow?
      ensures s.rows[i].change == 0
    {
    }
  }

  /** The collected outcome succeeds exactly when every column does, keeping their sheets in
      order; otherwise it carries the error of the first failing column. */
  lemma {:induction false} CollectSpec(outcomes: seq<Result<OutSheet>>)
    ensures Collect(outcomes).Success? <==> forall i :: 0 <= i < |outcomes| ==> outcomes[i].Success?
    ensures Collect(outcomes).Success? ==>
      forall i :: 0 <= i < |outcomes| ==> Collect(outcomes).value[i] == outcomes[i].value
    ensures Collect(outcomes).Failure? ==>
      exists i :: 0 <= i < |outcomes| && outcomes[i].Failure? && Collect(outcomes).error == outcomes[i].error
        && forall k :: 0 <= k < i ==> outcomes[k].Success?
    decreases |outcomes|
  {
    if outcomes != [] {
      var tail := outcomes[1..];
      CollectSpec(tail);
      assert forall i :: 1 <= i < |outcomes| ==> outcomes[i] == tail[i - 1];
      if Collect(outcomes).Failure? && outcomes[0].Success? {
        var i :| 0 <= i < |tail| && tail[i].Failure? && Collect(tail).error == tail[i].error
          && forall k :: 0 <= k < i ==> tail[k].Success?;
        assert outcomes[i + 1] == tail[i];
      }
    }
  }

  /** Lines 74-131: the run succeeds exactly when every column does, the `i`-th sheet being
      the `i`-th column's; otherwise the error is that of the first failing column. */
  lemma SheetsSpec(values: seq<Row>, totals: seq<Row>, columns: seq<string>, index: Index)
    requires index.Valid()
    ensures Sheets(values, totals, columns, index).Success? <==>
      forall i :: 0 <= i < |columns| ==> ColumnSheet(values, totals, columns[i], index).Success?
    ensures Sheets(values, totals, columns, index).Success? ==>
      |Sheets(values, totals, columns, index).value| == |columns|
      && forall i :: 0 <= i < |columns| ==>
        Sheets(values, totals, columns, index).value[i] == ColumnSheet(values, totals, columns[i], index).value
    ensures Sheets(values, totals, columns, index).Failure? ==>
      exists i :: 0 <= i < |columns|
        && ColumnSheet(values, totals, columns[i], index).Failure?
        && Sheets(values, totals, columns, index).error == ColumnSheet(values, totals, columns[i], index).error
        && forall k :: 0 <= k < i ==> ColumnSheet(values, totals, columns[k], index).Success?
  {
    var outcomes := seq(|columns|, i requires 0 <= i < |columns| => ColumnSheet(values, totals, columns[i], index));
    var all := Collect(outcomes);
    assert Sheets(values, totals, columns, index) == all;
    CollectSpec(outcomes);
    if all.Success? {
      forall i | 0 <= i < |columns|
        ensures ColumnSheet(values, totals, columns[i], index).Success?
        ensures all.value[i] == ColumnSheet(values, totals, columns[i], index).value
      {
        assert outcomes[i] == ColumnSheet(values, totals, columns[i], index);
      }
    } else {
      var i :| 0 <= i < |outcomes| && outcomes[i].Failure? && all.error == outcomes[i].error
        && forall k :: 0 <= k < i ==> outcomes[k].Success?;
      assert outcomes[i] == ColumnSheet(values, totals, columns[i], index);
      forall k | 0 <= k < i
        ensures ColumnSheet(values, totals, columns[k], index).Success?
      {
        assert outcomes[k] == ColumnSheet(values, totals, columns[k], index);
      }
    }
  }

  /** Lines 19-24 and 131: without the label column nothing is produced. */
  lemma MissingLabelStops(t: Table, prior: Option<PriorBook>)
    ensures LabelColumn !in t.columns <==> Run(t, prior) == Failure(MissingLabelColumn)
  {
    if LabelColumn in t.columns {
      assert Partition(t).Success?;
      var parts := Partition(t).value;
      match LoadIndex(prior)
      case Failure(e) =>
        assert e == ReferenceUnreadable;
      case Success(index) =>
        var all := Sheets(parts.1, parts.0, ValueColumns(t.columns), index);
        SheetsSpec(parts.1, parts.0, ValueColumns(t.columns), index);
        if all.Failure? {
          var i :| 0 <= i < |ValueColumns(t.columns)|
            && ColumnSheet(parts.1, parts.0, ValueColumns(t.columns)[i], index).Failure?
            && all.error == ColumnSheet(parts.1, parts.0, ValueColumns(t.columns)[i], index).error;
          var column := ValueColumns(t.columns)[i];
          ColumnChangesSpec(Ranked(parts.1, column), column, index);
        }
    }
  }

  /** Lines 15-131 without a prior-period workbook: one sheet per value column, in column
      order, titled by the truncated column name, and every rank change 0. */
  lemma NoPriorAllZero(t: Table)
    requires LabelColumn in t.columns
    ensures Run(t, None).Success?
    ensures var sheets := Run(t, None).value;
      var columns := ValueColumns(t.columns);
      && |sheets| == |columns|
      && forall i :: 0 <= i < |columns| ==>
           sheets[i].title == SheetTitle(columns[i])
           && forall j :: 0 <= j < |sheets[i].rows| && sheets[i].rows[j].RankedRow? ==> sheets[i].rows[j].change == 0
  {
    var parts := Partition(t).value;
    var index := NoReference();
    assert LoadIndex(None) == Success(index);
    var columns := ValueColumns(t.columns);
    forall i | 0 <= i < |columns|
      ensures ColumnSheet(parts.1, parts.0, columns[i], index).Success?
    {
      UnmatchedColumnKeepsZeros(parts.1, parts.0, columns[i], index);
    }
    SheetsSpec(parts.1, parts.0, columns, index);
    var sheets := Run(t, None).value;
    forall i | 0 <= i < |columns|
      ensures sheets[i].title == SheetTitle(columns[i])
      ensures forall j :: 0 <= j < |sheets[i].rows| && sheets[i].rows[j].RankedRow? ==> sheets[i].rows[j].change == 0
    {
      UnmatchedColumnKeepsZeros(parts.1, parts.0, columns[i], index);
    }
  }

  /** Lines 65-67: once the label column is present, the run fails with `ReferenceUnreadable`
      exactly when the prior workbook cannot be loaded; any other failure is a non-numeric
      prior rank met while reconciling. */
  lemma LoadFailureStops(t: Table, prior: Option<PriorBook>)
    requires LabelColumn in t.columns
    ensures Run(t, prior) == Failure(ReferenceUnreadable) <==> LoadIndex(prior).Failure?
    ensures LoadIndex(prior).Success? && Run(t, prior).Failure? ==> Run(t, prior).error.RankNotNumeric?
  {
    var parts := Partition(t).value;
    if LoadIndex(prior).Success? {
      var index := LoadIndex(prior).value;
      var columns := ValueColumns(t.columns);
      SheetsSpec(parts.1, parts.0, columns, index);
      var all := Sheets(parts.1, parts.0, columns, index);
      assert Run(t, prior) == all;
      if all.Failure? {
        var i :| 0 <= i < |columns| && ColumnSheet(parts.1, parts.0, columns[i], index).Failure?
          && all.error == ColumnSheet(parts.1, parts.0, columns[i], index).error;
      }
    }
  }
}
