/** Lines 76-81: the funds of one value column, filtered to numeric values and ranked by
    descending value. */
module Ranking {
  import opened Cells
  import opened RowFilter

  /** A fund in the ranking of one column: its label cell and its numeric value. */
  datatype Entry = Entry(fund: Cell, value: int)

  /** Lines 76-77: the row has a label and a numeric value in `column`. */
  predicate Rankable(row: Row, column: string)
  {
    NotNull(At(row, LabelColumn)) && At(row, column).Num?
  }

  function EntryOf(row: Row, column: string): Entry
    requires Rankable(row, column)
  {
    Entry(At(row, LabelColumn), At(row, column).n)
  }

  /** Lines 76-77: `dropna()` on (label, value), then keep the numeric values, in row order. */
  function Candidates(rows: seq<Row>, column: string): (r: seq<Entry>)
    ensures |r| <= |rows|
  {
    if rows == [] then []
    else (if Rankable(rows[0], column) then [EntryOf(rows[0], column)] else []) + Candidates(rows[1..], column)
  }

  /** The candidates are exactly the entries of the rankable rows. */
  lemma {:induction false} CandidatesMembership(rows: seq<Row>, column: string, e: Entry)
    ensures e in Candidates(rows, column) <==>
      exists i :: 0 <= i < |rows| && Rankable(rows[i], column) && EntryOf(rows[i], column) == e
    decreases |rows|
  {
    if rows != [] {
      CandidatesMembership(rows[1..], column, e);
      assert forall i :: 1 <= i < |rows| ==> rows[i] == rows[1..][i - 1];
      if e in Candidates(rows[1..], column) {
        var i :| 0 <= i < |rows[1..]| && Rankable(rows[1..][i], column) && EntryOf(rows[1..][i], column) == e;
        assert rows[i + 1] == rows[1..][i];
      }
    }
  }

  /** Row `row` gives the candidate entry `e` in `column`. */
  predicate Yields(row: Row, column: string, e: Entry)
  {
    Rankable(row, column) && EntryOf(row, column) == e
  }

  /** The positions of the rows that give the candidate entry `e`. */
  ghost function RowsYielding(rows: seq<Row>, column: string, e: Entry): set<int>
  {
    set i | 0 <= i < |rows| && Yields(rows[i], column, e)
  }

  /** The positions of all rows that give a candidate. */
  ghost function RankableRows(rows: seq<Row>, column: string): set<int>
  {
    set i | 0 <= i < |rows| && Rankable(rows[i], column)
  }

  /** Filtering a concatenation filters each part. */
  lemma {:induction false} CandidatesAppend(a: seq<Row>, b: seq<Row>, column: string)
    ensures Candidates(a + b, column) == Candidates(a, column) + Candidates(b, column)
    decreases |a|
  {
    if a == [] {
      assert a + b == b;
    } else {
      var ab := a + b;
      assert ab[0] == a[0] && ab[1..] == a[1..] + b;
      CandidatesAppend(a[1..], b, column);
      var head := if Rankable(a[0], column) then [EntryOf(a[0], column)] else [];
      assert Candidates(ab, column) == head + Candidates(ab[1..], column);
      assert Candidates(a, column) == head + Candidates(a[1..], column);
    }
  }

  /** Filtering a sequence with one more row at the end. */
  lemma CandidatesSnoc(init: seq<Row>, last: Row, column: string)
    ensures Candidates(init + [last], column)
      == Candidates(init, column) + (if Rankable(last, column) then [EntryOf(last, column)] else [])
  {
    CandidatesAppend(init, [last], column);
    assert [last][1..] == [];
  }

  /** One more row adds its position to the rows giving `e` exactly when it gives `e`. */
  lemma RowsYieldingSnoc(init: seq<Row>, last: Row, column: string, e: Entry)
    ensures RowsYielding(init + [last], column, e)
      == RowsYielding(init, column, e) + (if Yields(last, column, e) then {|init|} else {})
    ensures |init| !in RowsYielding(init, column, e)
  {
    var rows := init + [last];
    forall i | 0 <= i < |init|
      ensures rows[i] == init[i]
    {
    }
  }

  /** One more row adds its position to the rankable rows exactly when it is rankable. */
  lemma RankableRowsSnoc(init: seq<Row>, last: Row, column: string)
    ensures RankableRows(init + [last], column)
      == RankableRows(init, column) + (if Rankable(last, column) then {|init|} else {})
    ensures |init| !in RankableRows(init, column)
  {
    var rows := init + [last];
    forall i | 0 <= i < |init|
      ensures rows[i] == init[i]
    {
    }
  }

  /** Each entry occurs among the candidates once per row that gives it: rows with equal
      labels and equal values are all ranked, none is merged. */
  lemma {:induction false} CandidatesCount(rows: seq<Row>, column: string, e: Entry)
    ensures multiset(Candidates(rows, column))[e] == |RowsYielding(rows, column, e)|
    decreases |rows|
  {
    if rows == [] {
      assert RowsYielding(rows, column, e) == {};
    } else {
      var n := |rows| - 1;
      var init, last := rows[..n], rows[n];
      assert rows == init + [last];
      CandidatesCount(init, column, e);
      CandidatesSnoc(init, last, column);
      RowsYieldingSnoc(init, last, column, e);
      var c := Candidates(init, column);
      var t := if Rankable(last, column) then [EntryOf(last, column)] else [];
      assert multiset(c + t)[e] == multiset(c)[e] + multiset(t)[e];
    }
  }

  /** There are exactly as many candidates as rows with a label and a numeric value. */
  lemma {:induction false} CandidatesLength(rows: seq<Row>, column: string)
    ensures |Candidates(rows, column)| == |RankableRows(rows, column)|
    decreases |rows|
  {
    if rows == [] {
      assert RankableRows(rows, column) == {};
    } else {
      var n := |rows| - 1;
      var init, last := rows[..n], rows[n];
      assert rows == init + [last];
      CandidatesLength(init, column);
      CandidatesSnoc(init, last, column);
      RankableRowsSnoc(init, last, column);
    }
  }

  /** A column with no numeric value ranks nobody (and is not an error). */
  lemma {:induction false} NoNumbersNoCandidates(rows: seq<Row>, column: string)
    requires forall i :: 0 <= i < |rows| ==> !At(rows[i], column).Num?
    ensures Candidates(rows, column) == []
    decreases |rows|
  {
    if rows != [] {
      NoNumbersNoCandidates(rows[1..], column);
    }
  }

  /** Ranked order: values never increase as the rank grows. */
  predicate NonIncreasing(s: seq<Entry>)
  {
    forall i, j :: 0 <= i < j < |s| ==> s[i].value >= s[j].value
  }

  /** Every element of `rest`, which holds `e` and the tail of `s`, is at most the head of `s`. */
  lemma BoundedByHead(e: Entry, s: seq<Entry>, rest: seq<Entry>)
    requires NonIncreasing(s) && |s| > 0 && e.value < s[0].value
    requires forall x :: x in rest <==> x == e || x in s[1..]
    ensures forall j :: 0 <= j < |rest| ==> rest[j].value <= s[0].value
  {
    forall j | 0 <= j < |rest|
      ensures rest[j].value <= s[0].value
    {
      assert rest[j] in rest;
      if rest[j] != e {
        var k :| 0 <= k < |s[1..]| && s[1..][k] == rest[j];
        assert s[k + 1] == rest[j];
      }
    }
  }

  /** Putting the head of `s` back in front of `e` inserted into the tail of `s`. */
  lemma InsertBelowHead(e: Entry, s: seq<Entry>, rest: seq<Entry>)
    requires NonIncreasing(s) && |s| > 0 && e.value < s[0].value
    requires NonIncreasing(rest)
    requires multiset(rest) == multiset(s[1..]) + multiset{e}
    requires forall x :: x in rest <==> x == e || x in s[1..]
    ensures NonIncreasing([s[0]] + rest)
    ensures multiset([s[0]] + rest) == multiset(s) + multiset{e}
    ensures forall x :: x in [s[0]] + rest <==> x == e || x in s
  {
    assert s == [s[0]] + s[1..];
    BoundedByHead(e, s, rest);
    assert multiset([s[0]] + rest) == multiset{s[0]} + multiset(rest);
  }

  function InsertDesc(e: Entry, s: seq<Entry>): (r: seq<Entry>)
    requires NonIncreasing(s)
    ensures NonIncreasing(r)
    ensures multiset(r) == multiset(s) + multiset{e}
    ensures forall x :: x in r <==> x == e || x in s
  {
    if s == [] || e.value >= s[0].value then [e] + s
    else
      var rest := InsertDesc(e, s[1..]);
      InsertBelowHead(e, s, rest);
      [s[0]] + rest
  }

  /** Line 79: `sort_values(ascending=False)`. Only the order of values is promised: pandas'
      default sort is not stable, so tied funds may come out in any order. */
  function SortDesc(s: seq<Entry>): (r: seq<Entry>)
    ensures NonIncreasing(r)
    ensures multiset(r) == multiset(s)
  {
    if s == [] then []
    else
      assert s == [s[0]] + s[1..];
      InsertDesc(s[0], SortDesc(s[1..]))
  }

  /** Lines 76-79: the ranking of one column; the fund at position `i` has rank `i + 1`. */
  function Ranked(rows: seq<Row>, column: string): (r: seq<Entry>)
    ensures NonIncreasing(r)
    ensures multiset(r) == multiset(Candidates(rows, column))
  {
    SortDesc(Candidates(rows, column))
  }

  function ValuesOf(s: seq<Entry>): (r: seq<int>)
  {
    seq(|s|, i requires 0 <= i < |s| => s[i].value)
  }

  lemma ValuesOfAppend(a: seq<Entry>, b: seq<Entry>)
    ensures ValuesOf(a + b) == ValuesOf(a) + ValuesOf(b)
  {
    assert forall i :: 0 <= i < |a + b| ==> ValuesOf(a + b)[i] == (ValuesOf(a) + ValuesOf(b))[i];
  }

  /** Taking out the entry at `k` takes its value out of the values. */
  lemma RemoveAt(b: seq<Entry>, k: nat)
    requires k < |b|
    ensures multiset(ValuesOf(b)) == multiset(ValuesOf(b[..k] + b[k + 1..])) + multiset{b[k].value}
  {
    assert b == b[..k] + [b[k]] + b[k + 1..];
    var x, y := ValuesOf(b[..k]), ValuesOf(b[k + 1..]);
    ValuesOfAppend(b[..k] + [b[k]], b[k + 1..]);
    ValuesOfAppend(b[..k], [b[k]]);
    ValuesOfAppend(b[..k], b[k + 1..]);
    assert ValuesOf(b) == x + [b[k].value] + y;
    assert ValuesOf(b[..k] + b[k + 1..]) == x + y;
    assert multiset(ValuesOf(b)) == multiset(x) + multiset{b[k].value} + multiset(y);
  }

  /** Matching the head of `a` with the entry at `k` of its permutation `b` leaves
      permutations of each other. */
  lemma TailPermutation(a: seq<Entry>, b: seq<Entry>, k: nat)
    requires multiset(a) == multiset(b) && a != [] && k < |b| && b[k] == a[0]
    ensures multiset(a[1..]) == multiset(b[..k] + b[k + 1..])
  {
    assert b == b[..k] + [b[k]] + b[k + 1..];
    assert multiset(b[..k] + b[k + 1..]) == multiset(b) - multiset{b[k]};
    assert a == [a[0]] + a[1..];
    assert multiset(a[1..]) == multiset(a) - multiset{a[0]};
  }

  /** Rearranging entries rearranges their values. */
  lemma {:induction false} ValuesOfPermutation(a: seq<Entry>, b: seq<Entry>)
    requires multiset(a) == multiset(b)
    ensures multiset(ValuesOf(a)) == multiset(ValuesOf(b))
    decreases |a|
  {
    if a != [] {
      assert a[0] in multiset(b);
      var k :| 0 <= k < |b| && b[k] == a[0];
      TailPermutation(a, b, k);
      ValuesOfPermutation(a[1..], b[..k] + b[k + 1..]);
      RemoveAt(b, k);
      RemoveAt(a, 0);
      assert a[..0] + a[1..] == a[1..];
    }
  }

  predicate DescendingInts(s: seq<int>)
  {
    forall i, j :: 0 <= i < j < |s| ==> s[i] >= s[j]
  }

  /** Two descending arrangements of the same numbers are the same sequence. */
  lemma {:induction false} DescendingUnique(a: seq<int>, b: seq<int>)
    requires DescendingInts(a) && DescendingInts(b) && multiset(a) == multiset(b)
    ensures a == b
    decreases |a|
  {
    assert |a| == |multiset(a)| == |multiset(b)| == |b|;
    if a != [] {
      SameHead(a, b);
      SameTail(a, b);
      DescendingUnique(a[1..], b[1..]);
      assert a == [a[0]] + a[1..] && b == [b[0]] + b[1..];
    }
  }

  /** Two descending arrangements of the same numbers start with the same (largest) one. */
  lemma SameHead(a: seq<int>, b: seq<int>)
    requires DescendingInts(a) && DescendingInts(b) && multiset(a) == multiset(b)
    requires a != [] && b != []
    ensures a[0] == b[0]
  {
    assert a[0] in multiset(b) && b[0] in multiset(a);
    var i :| 0 <= i < |a| && a[i] == b[0];
    var j :| 0 <= j < |b| && b[j] == a[0];
    assert a[0] >= a[i] && b[0] >= b[j];
  }

  /** Removing an equal head from both arrangements leaves equal multisets. */
  lemma SameTail(a: seq<int>, b: seq<int>)
    requires multiset(a) == multiset(b) && a != [] && b != [] && a[0] == b[0]
    ensures multiset(a[1..]) == multiset(b[1..])
  {
    assert a == [a[0]] + a[1..] && b == [b[0]] + b[1..];
    assert multiset(a[1..]) == multiset(a) - multiset{a[0]};
    assert multiset(b[1..]) == multiset(b) - multiset{b[0]};
  }

  /** Whatever order an unstable sort leaves tied funds in, the value held at each rank is
      the same: only which of several tied funds gets which rank is open. */
  lemma SortedValuesDetermined(a: seq<Entry>, b: seq<Entry>)
    requires NonIncreasing(a) && NonIncreasing(b) && multiset(a) == multiset(b)
    ensures |a| == |b| && forall i :: 0 <= i < |a| ==> a[i].value == b[i].value
  {
    ValuesOfPermutation(a, b);
    var va, vb := ValuesOf(a), ValuesOf(b);
    assert DescendingInts(va) && DescendingInts(vb);
    DescendingUnique(va, vb);
    assert |a| == |va| == |vb| == |b|;
    forall i | 0 <= i < |a|
      ensures a[i].value == b[i].value
    {
      assert va[i] == vb[i];
    }
  }
}
