/** Splitting the input table into the fund rows to rank and the summary ("total") rows. */
module RowFilter {
  import opened Base
  import opened Text
  import opened Cells

  /** The label column every input table must carry. */
  const LabelColumn: string := "MutualFund Name"

  /** `label.str.contains('total', case=False, na=False)`. */
  predicate IsTotal(name: Cell)
  {
    name.Str? && Contains(Lower(name.s), "total")
  }

  /** A label is a total exactly when it is text and "total" occurs at some position of its
      lower-case form; a missing or numeric label never is. */
  lemma IsTotalSpec(name: Cell)
    ensures IsTotal(name) <==> name.Str? && exists i :: OccursAt(Lower(name.s), "total", i)
  {
    if name.Str? {
      ContainsAt(Lower(name.s), "total");
    }
  }

  predicate IsTotalRow(row: Row)
  {
    IsTotal(At(row, LabelColumn))
  }

  /** The rows kept by the boolean mask (line 26). */
  function Totals(rows: seq<Row>): (r: seq<Row>)
    ensures forall i :: 0 <= i < |r| ==> IsTotalRow(r[i])
  {
    if rows == [] then []
    else (if IsTotalRow(rows[0]) then [rows[0]] else []) + Totals(rows[1..])
  }

  /** The rows kept by the negated mask (line 27). */
  function Values(rows: seq<Row>): (r: seq<Row>)
    ensures forall i :: 0 <= i < |r| ==> !IsTotalRow(r[i])
  {
    if rows == [] then []
    else (if IsTotalRow(rows[0]) then [] else [rows[0]]) + Values(rows[1..])
  }

  /** `rows` is a merge of `a` and `b` that keeps the order within each of them. */
  ghost predicate Interleaves(rows: seq<Row>, a: seq<Row>, b: seq<Row>)
    decreases |rows|
  {
    if rows == [] then a == [] && b == []
    else
      || (a != [] && a[0] == rows[0] && Interleaves(rows[1..], a[1..], b))
      || (b != [] && b[0] == rows[0] && Interleaves(rows[1..], a, b[1..]))
  }

  /** Every row lands in exactly one of the two parts, and each part keeps the input order. */
  lemma {:induction false} PartitionInterleaves(rows: seq<Row>)
    ensures Interleaves(rows, Totals(rows), Values(rows))
    ensures |Totals(rows)| + |Values(rows)| == |rows|
    decreases |rows|
  {
    if rows != [] {
      var rest := rows[1..];
      PartitionInterleaves(rest);
      var t, v := Totals(rows), Values(rows);
      if IsTotalRow(rows[0]) {
        assert t == [rows[0]] + Totals(rest);
        assert t[1..] == Totals(rest);
        assert v == Values(rest);
        assert t != [] && t[0] == rows[0] && Interleaves(rest, t[1..], v);
      } else {
        assert v == [rows[0]] + Values(rest);
        assert v[1..] == Values(rest);
        assert t == Totals(rest);
        assert v != [] && v[0] == rows[0] && Interleaves(rest, t, v[1..]);
      }
    }
  }

  /** Interleaving loses and duplicates nothing: the two parts hold the input's rows. */
  lemma {:induction false} InterleavesMultiset(rows: seq<Row>, a: seq<Row>, b: seq<Row>)
    requires Interleaves(rows, a, b)
    ensures multiset(a) + multiset(b) == multiset(rows)
    decreases |rows|
  {
    if rows != [] {
      assert rows == [rows[0]] + rows[1..];
      if a != [] && a[0] == rows[0] && Interleaves(rows[1..], a[1..], b) {
        InterleavesMultiset(rows[1..], a[1..], b);
        assert a == [a[0]] + a[1..];
      } else {
        InterleavesMultiset(rows[1..], a, b[1..]);
        assert b == [b[0]] + b[1..];
      }
    }
  }

  /** The split is the only order-keeping split into total rows and other rows. */
  lemma {:induction false} PartitionUnique(rows: seq<Row>, a: seq<Row>, b: seq<Row>)
    requires Interleaves(rows, a, b)
    requires forall i :: 0 <= i < |a| ==> IsTotalRow(a[i])
    requires forall i :: 0 <= i < |b| ==> !IsTotalRow(b[i])
    ensures a == Totals(rows) && b == Values(rows)
    decreases |rows|
  {
    if rows != [] {
      var rest := rows[1..];
      if IsTotalRow(rows[0]) {
        assert !(b != [] && b[0] == rows[0]);
        assert a != [] && a[0] == rows[0] && Interleaves(rest, a[1..], b);
        assert forall i :: 0 <= i < |a[1..]| ==> IsTotalRow(a[1..][i]);
        PartitionUnique(rest, a[1..], b);
        assert a == [a[0]] + a[1..];
      } else {
        assert !(a != [] && a[0] == rows[0]);
        assert b != [] && b[0] == rows[0] && Interleaves(rest, a, b[1..]);
        assert forall i :: 0 <= i < |b[1..]| ==> !IsTotalRow(b[1..][i]);
        PartitionUnique(rest, a, b[1..]);
        assert b == [b[0]] + b[1..];
      }
    }
  }

  /** A missing label is never a total, whatever the rest of the row holds. */
  lemma NullLabelIsNotTotal(row: Row)
    requires At(row, LabelColumn) == Null
    ensures !IsTotalRow(row)
  {
  }

  /** Lines 20-27: fail when the label column is absent, otherwise split the rows
      into (total rows, value rows). */
  function Partition(t: Table): (r: Result<(seq<Row>, seq<Row>)>)
    ensures r.Failure? <==> LabelColumn !in t.columns
    ensures r.Failure? ==> r.error == MissingLabelColumn
    ensures r.Success? ==>
      && Interleaves(t.rows, r.value.0, r.value.1)
      && (forall i :: 0 <= i < |r.value.0| ==> IsTotalRow(r.value.0[i]))
      && (forall i :: 0 <= i < |r.value.1| ==> !IsTotalRow(r.value.1[i]))
  {
    if LabelColumn !in t.columns then Failure(MissingLabelColumn)
    else
      PartitionInterleaves(t.rows);
      Success((Totals(t.rows), Values(t.rows)))
  }
}
