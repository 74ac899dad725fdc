/** The prior-period league table: one anchor string per sheet (its D1 cell) and, for every
    sheet laid out as a league table, the rank each fund had. */
module ReferenceIndex {
  import opened Base
  import opened Text
  import opened Cells
  import opened OrderedDict

  /** One sheet of the prior workbook: its name, its D1 cell, and its content read as a
      table (`None` when that read fails). */
  datatype PriorSheet = PriorSheet(name: string, d1: Cell, content: Option<Table>)

  /** The prior workbook as supplied: either it cannot be opened at all, or its sheets in order. */
  datatype PriorBook = Unreadable | Book(sheets: seq<PriorSheet>)

  /** `reference_sheet_d1_values` (sheet name -> anchor, in sheet order) and
      `reference_data` (sheet name -> fund name -> prior rank). */
  datatype Index = Index(anchors: Dict<string>, ranks: map<string, Dict<Cell>>)
  {
    /** Both dicts are proper insertion-ordered dicts. */
    ghost predicate Valid()
    {
      anchors.Valid() && forall s :: s in ranks ==> ranks[s].Valid()
    }
  }

  /** The index used when no prior workbook is supplied. */
  function NoReference(): (ix: Index)
    ensures ix.Valid() && ix.anchors.keys == [] && ix.ranks == map[]
  {
    Index(Empty(), map[])
  }

  /** Lines 40-41: a falsy D1 reads as "", anything else as its stripped `str()`. */
  function Anchor(d1: Cell): string
  {
    if Truthy(d1) then Strip(AsString(d1)) else ""
  }

  /** An empty, zero or missing D1 gives the empty anchor; a present one is its text with the
      surrounding whitespace cut away. Stated apart from `Anchor` so that proofs about the
      anchor dict do not carry it. */
  lemma AnchorShape(d1: Cell)
    ensures !Truthy(d1) ==> Anchor(d1) == ""
    ensures Truthy(d1) ==> exists i :: StrippedAt(AsString(d1), Anchor(d1), i)
  {
    if Truthy(d1) {
      var s := AsString(d1);
      assert Anchor(d1) == Strip(s);
      StripSlice(s);
    }
  }

  const RankHeader: string := "Rank"

  /** Line 53: a header naming the fund column. */
  predicate IsFundHeader(h: string)
  {
    Contains(Lower(h), "mutual fund")
  }

  /** The header the scan at lines 51-56 settles on for the fund column: the last one that qualifies. */
  function LastFundHeader(headers: seq<string>): Option<string>
  {
    if headers == [] then None
    else if IsFundHeader(headers[|headers| - 1]) then Some(headers[|headers| - 1])
    else LastFundHeader(headers[..|headers| - 1])
  }

  /** The chosen fund header qualifies and no later header does; with none qualifying there is none. */
  lemma {:induction false} LastFundHeaderSpec(headers: seq<string>)
    ensures LastFundHeader(headers).None? <==> forall i :: 0 <= i < |headers| ==> !IsFundHeader(headers[i])
    ensures LastFundHeader(headers).Some? ==>
      exists i :: 0 <= i < |headers| && headers[i] == LastFundHeader(headers).value
        && IsFundHeader(headers[i]) && forall j :: i < j < |headers| ==> !IsFundHeader(headers[j])
    decreases |headers|
  {
    if headers != [] {
      var n := |headers| - 1;
      var init := headers[..n];
      if !IsFundHeader(headers[n]) {
        LastFundHeaderSpec(init);
        assert forall i :: 0 <= i < n ==> headers[i] == init[i];
      } else {
        assert headers[n] == LastFundHeader(headers).value;
      }
    }
  }

  /** "Rank" is never taken for a fund header, so the `elif` at line 55 sees every "Rank". */
  lemma RankIsNotFundHeader()
    ensures !IsFundHeader(RankHeader)
  {
    if IsFundHeader(RankHeader) {
      ContainsLength(Lower(RankHeader), "mutual fund");
    }
  }

  /** Lines 49-56: scan the headers once, keeping the last fund header and the exact "Rank" header. */
  method FindColumns(headers: seq<string>) returns (fund: Option<string>, rank: Option<string>)
    ensures fund == LastFundHeader(headers)
    ensures rank == if RankHeader in headers then Some(RankHeader) else None
  {
    RankIsNotFundHeader();
    fund, rank := None, None;
    var i := 0;
    while i < |headers|
      invariant 0 <= i <= |headers|
      invariant fund == LastFundHeader(headers[..i])
      invariant rank == if RankHeader in headers[..i] then Some(RankHeader) else None
    {
      var h := headers[i];
      if IsFundHeader(h) {
        fund := Some(h);
      } else if h == RankHeader {
        rank := Some(h);
      }
      assert headers[..i + 1][..i] == headers[..i];
      assert headers[..i + 1] == headers[..i] + [h];
      i := i + 1;
    }
    assert headers[..i] == headers;
  }

  /** Line 63: a row contributes to the rank map when both its name and its rank are present. */
  predicate Counted(row: Row, fund: string, rank: string)
  {
    NotNull(At(row, fund)) && NotNull(At(row, rank))
  }

  /** Line 62: the key a row is stored under. */
  function KeyOf(row: Row, fund: string): string
  {
    AsString(At(row, fund))
  }

  /** The dict comprehension at lines 61-64, as the sequence of insertions it performs. */
  function RankMapOf(rows: seq<Row>, fund: string, rank: string): (d: Dict<Cell>)
    ensures d.Valid()
  {
    if rows == [] then Empty()
    else
      var d := RankMapOf(rows[..|rows| - 1], fund, rank);
      var row := rows[|rows| - 1];
      if Counted(row, fund, rank) then Put(d, KeyOf(row, fund), At(row, rank)) else d
  }

  /** Row `i` is the last counted row stored under key `k`. */
  predicate LastRowFor(rows: seq<Row>, fund: string, rank: string, k: string, i: int)
  {
    && 0 <= i < |rows| && Counted(rows[i], fund, rank) && KeyOf(rows[i], fund) == k
    && forall j :: i < j < |rows| ==> !(Counted(rows[j], fund, rank) && KeyOf(rows[j], fund) == k)
  }

  /** A key is in the rank map exactly when some counted row carries it. */
  lemma {:induction false} RankMapKeys(rows: seq<Row>, fund: string, rank: string, k: string)
    ensures k in RankMapOf(rows, fund, rank).vals <==>
      exists i :: 0 <= i < |rows| && Counted(rows[i], fund, rank) && KeyOf(rows[i], fund) == k
    decreases |rows|
  {
    if rows != [] {
      var n := |rows| - 1;
      var init := rows[..n];
      RankMapKeys(init, fund, rank, k);
      assert forall i :: 0 <= i < n ==> rows[i] == init[i];
    }
  }

  /** A last row that does not store `k` leaves the entry for `k` as the rows before it made it. */
  lemma RankMapOtherRow(rows: seq<Row>, fund: string, rank: string, k: string)
    requires rows != []
    requires !(Counted(rows[|rows| - 1], fund, rank) && KeyOf(rows[|rows| - 1], fund) == k)
    ensures var d, d0 := RankMapOf(rows, fund, rank), RankMapOf(rows[..|rows| - 1], fund, rank);
      (k in d.vals <==> k in d0.vals) && (k in d.vals ==> d.vals[k] == d0.vals[k])
  {
  }

  /** The last row storing `k` stays the last one when a row that does not store `k` follows. */
  lemma LastRowExtends(rows: seq<Row>, fund: string, rank: string, k: string, i: int)
    requires rows != [] && LastRowFor(rows[..|rows| - 1], fund, rank, k, i)
    requires !(Counted(rows[|rows| - 1], fund, rank) && KeyOf(rows[|rows| - 1], fund) == k)
    ensures LastRowFor(rows, fund, rank, k, i) && rows[i] == rows[..|rows| - 1][i]
  {
    var init := rows[..|rows| - 1];
    forall j | i < j < |rows|
      ensures !(Counted(rows[j], fund, rank) && KeyOf(rows[j], fund) == k)
    {
      if j < |init| {
        assert rows[j] == init[j];
      }
    }
  }

  /** A key in the rank map holds the rank of its last counted row. */
  lemma {:induction false} RankMapLast(rows: seq<Row>, fund: string, rank: string, k: string)
    requires k in RankMapOf(rows, fund, rank).vals
    ensures exists i :: LastRowFor(rows, fund, rank, k, i) && RankMapOf(rows, fund, rank).vals[k] == At(rows[i], rank)
    decreases |rows|
  {
    var n := |rows| - 1;
    if Counted(rows[n], fund, rank) && KeyOf(rows[n], fund) == k {
      assert LastRowFor(rows, fund, rank, k, n);
    } else {
      var init := rows[..n];
      RankMapOtherRow(rows, fund, rank, k);
      RankMapLast(init, fund, rank, k);
      var i :| LastRowFor(init, fund, rank, k, i) && RankMapOf(init, fund, rank).vals[k] == At(init[i], rank);
      LastRowExtends(rows, fund, rank, k, i);
    }
  }

  /** A key is in the rank map exactly when some counted row carries it, and it maps to the
      rank of the last such row: later duplicates overwrite earlier ones. */
  lemma RankMapEntry(rows: seq<Row>, fund: string, rank: string, k: string)
    ensures k in RankMapOf(rows, fund, rank).vals <==>
      exists i :: 0 <= i < |rows| && Counted(rows[i], fund, rank) && KeyOf(rows[i], fund) == k
    ensures k in RankMapOf(rows, fund, rank).vals ==>
      exists i :: LastRowFor(rows, fund, rank, k, i) && RankMapOf(rows, fund, rank).vals[k] == At(rows[i], rank)
  {
    RankMapKeys(rows, fund, rank, k);
    if k in RankMapOf(rows, fund, rank).vals {
      RankMapLast(rows, fund, rank, k);
    }
  }

  /** Row `i` is the first counted row stored under key `k`. */
  predicate FirstRowFor(rows: seq<Row>, fund: string, rank: string, k: string, i: int)
  {
    && 0 <= i < |rows| && Counted(rows[i], fund, rank) && KeyOf(rows[i], fund) == k
    && forall j :: 0 <= j < i ==> !(Counted(rows[j], fund, rank) && KeyOf(rows[j], fund) == k)
  }

  /** Some counted row is stored under key `k`; the first such row is then unique. */
  predicate HasFirstRow(rows: seq<Row>, fund: string, rank: string, k: string)
  {
    exists i :: 0 <= i < |rows| && FirstRowFor(rows, fund, rank, k, i)
  }

  lemma FirstRowUnique(rows: seq<Row>, fund: string, rank: string, k: string, i: int, j: int)
    requires FirstRowFor(rows, fund, rank, k, i) && FirstRowFor(rows, fund, rank, k, j)
    ensures i == j
  {
  }

  /** The rank map lists its keys in the order their first counted rows appear: a key
      overwritten by a later duplicate keeps the place of its first insertion. */
  lemma {:induction false} RankMapKeyOrder(rows: seq<Row>, fund: string, rank: string)
    ensures forall a :: 0 <= a < |RankMapOf(rows, fund, rank).keys| ==>
      HasFirstRow(rows, fund, rank, RankMapOf(rows, fund, rank).keys[a])
    ensures forall a, b, i, j ::
      && 0 <= a < b < |RankMapOf(rows, fund, rank).keys|
      && FirstRowFor(rows, fund, rank, RankMapOf(rows, fund, rank).keys[a], i)
      && FirstRowFor(rows, fund, rank, RankMapOf(rows, fund, rank).keys[b], j)
      ==> i < j
    decreases |rows|
  {
    if rows != [] {
      var n := |rows| - 1;
      var init := rows[..n];
      RankMapKeyOrder(init, fund, rank);
      var d0 := RankMapOf(init, fund, rank);
      var d := RankMapOf(rows, fund, rank);
      assert forall j :: 0 <= j < n ==> rows[j] == init[j];
      forall k, i | FirstRowFor(init, fund, rank, k, i)
        ensures FirstRowFor(rows, fund, rank, k, i)
      {
      }
      var added := Counted(rows[n], fund, rank) && KeyOf(rows[n], fund) !in d0.vals;
      if added {
        RankMapEntry(init, fund, rank, KeyOf(rows[n], fund));
        assert FirstRowFor(rows, fund, rank, KeyOf(rows[n], fund), n);
      }
      assert d.keys == if added then d0.keys + [KeyOf(rows[n], fund)] else d0.keys;
      forall a | 0 <= a < |d.keys|
        ensures HasFirstRow(rows, fund, rank, d.keys[a])
      {
        if a < |d0.keys| {
          var i :| FirstRowFor(init, fund, rank, d0.keys[a], i);
          assert FirstRowFor(rows, fund, rank, d.keys[a], i);
        } else {
          assert FirstRowFor(rows, fund, rank, d.keys[a], n);
        }
      }
      forall a, b, i, j |
        && 0 <= a < b < |d.keys|
        && FirstRowFor(rows, fund, rank, d.keys[a], i)
        && FirstRowFor(rows, fund, rank, d.keys[b], j)
        ensures i < j
      {
        var i' :| FirstRowFor(init, fund, rank, d0.keys[a], i');
        FirstRowUnique(rows, fund, rank, d.keys[a], i, i');
        if b < |d0.keys| {
          var j' :| FirstRowFor(init, fund, rank, d0.keys[b], j');
          FirstRowUnique(rows, fund, rank, d.keys[b], j, j');
        } else {
          FirstRowUnique(rows, fund, rank, d.keys[b], j, n);
        }
      }
    } else {
      assert RankMapOf(rows, fund, rank).keys == [];
    }
  }

  /** Lines 61-64 run as a loop that fills the dict one row at a time. */
  method BuildRankMap(rows: seq<Row>, fund: string, rank: string) returns (d: Dict<Cell>)
    ensures d == RankMapOf(rows, fund, rank)
  {
    d := Empty();
    var i := 0;
    while i < |rows|
      invariant 0 <= i <= |rows|
      invariant d == RankMapOf(rows[..i], fund, rank)
    {
      var row := rows[i];
      assert rows[..i + 1][..i] == rows[..i];
      if Counted(row, fund, rank) {
        d := Put(d, KeyOf(row, fund), At(row, rank));
      }
      i := i + 1;
    }
    assert rows[..i] == rows;
  }

  /** Lines 48-64 for one sheet: it has a rank map exactly when some header names the fund
      column and one is exactly "Rank"; the map is built from the last fund header's column. */
  function SheetRanks(t: Table): (r: Option<Dict<Cell>>)
    ensures r.Some? <==> (exists i :: 0 <= i < |t.columns| && IsFundHeader(t.columns[i])) && RankHeader in t.columns
    ensures r.Some? ==>
      && r.value.Valid() && LastFundHeader(t.columns).Some?
      && r.value == RankMapOf(t.rows, LastFundHeader(t.columns).value, RankHeader)
  {
    LastFundHeaderSpec(t.columns);
    match LastFundHeader(t.columns)
    case Some(fund) =>
      if RankHeader in t.columns then Some(RankMapOf(t.rows, fund, RankHeader)) else None
    case None => None
  }

  /** Lines 38-41: the anchors of all sheets, in sheet order. */
  function AnchorsOf(sheets: seq<PriorSheet>): (d: Dict<string>)
    ensures d.Valid()
  {
    if sheets == [] then Empty()
    else
      var s := sheets[|sheets| - 1];
      Put(AnchorsOf(sheets[..|sheets| - 1]), s.name, Anchor(s.d1))
  }

  predicate Readable(sheets: seq<PriorSheet>)
  {
    forall i :: 0 <= i < |sheets| ==> sheets[i].content.Some?
  }

  /** Lines 44-64: the rank maps of the sheets laid out as league tables. */
  function RanksOf(sheets: seq<PriorSheet>): (r: map<string, Dict<Cell>>)
    requires Readable(sheets)
    ensures forall s :: s in r ==> r[s].Valid()
  {
    if sheets == [] then map[]
    else
      var s := sheets[|sheets| - 1];
      var m := RanksOf(sheets[..|sheets| - 1]);
      match SheetRanks(s.content.value)
      case Some(d) => m[s.name := d]
      case None => m
  }

  /** Lines 32-67 once a file is supplied: an unreadable workbook or sheet aborts the run. */
  function IndexOf(book: PriorBook): (r: Result<Index>)
    ensures r.Success? ==> r.value.Valid()
    ensures r.Failure? ==> r.error == ReferenceUnreadable
  {
    match book
    case Unreadable => Failure(ReferenceUnreadable)
    case Book(sheets) =>
      if Readable(sheets) then Success(Index(AnchorsOf(sheets), RanksOf(sheets)))
      else Failure(ReferenceUnreadable)
  }

  /** Lines 30-67: no reference file means an empty index. */
  function LoadIndex(prior: Option<PriorBook>): (r: Result<Index>)
    ensures r.Success? ==> r.value.Valid()
    ensures r.Failure? <==> prior.Some? && (prior.value.Unreadable? || !Readable(prior.value.sheets))
  {
    match prior
    case None => Success(NoReference())
    case Some(book) => IndexOf(book)
  }

  /** Lines 38-41: record each sheet's anchor under its name. */
  method CollectAnchors(sheets: seq<PriorSheet>) returns (anchors: Dict<string>)
    ensures anchors == AnchorsOf(sheets)
  {
    anchors := Empty();
    var i := 0;
    while i < |sheets|
      invariant 0 <= i <= |sheets|
      invariant anchors == AnchorsOf(sheets[..i])
    {
      assert sheets[..i + 1][..i] == sheets[..i];
      anchors := Put(anchors, sheets[i].name, Anchor(sheets[i].d1));
      i := i + 1;
    }
    assert sheets[..i] == sheets;
  }

  /** Lines 44-64: read each sheet and keep the rank map of every sheet laid out as a league
      table; `None` when some sheet cannot be read. */
  method CollectRanks(sheets: seq<PriorSheet>) returns (ranks: Option<map<string, Dict<Cell>>>)
    ensures ranks.Some? <==> Readable(sheets)
    ensures ranks.Some? ==> ranks.value == RanksOf(sheets)
  {
    var acc: map<string, Dict<Cell>> := map[];
    var i := 0;
    while i < |sheets|
      invariant 0 <= i <= |sheets|
      invariant Readable(sheets[..i])
      invariant acc == RanksOf(sheets[..i])
    {
      var init := sheets[..i + 1];
      assert init[..i] == sheets[..i];
      var content := sheets[i].content;
      if content.None? {
        assert !Readable(sheets);
        return None;
      }
      var t := content.value;
      var fund, rank := FindColumns(t.columns);
      if rank.Some? && fund.Some? {
        var d := BuildRankMap(t.rows, fund.value, rank.value);
        acc := acc[sheets[i].name := d];
      }
      i := i + 1;
    }
    assert sheets[..i] == sheets;
    ranks := Some(acc);
  }

  /** Lines 32-67: an unreadable workbook or sheet aborts the run with an error. */
  method LoadReference(book: PriorBook) returns (r: Result<Index>)
    ensures r == IndexOf(book)
  {
    if book.Unreadable? {
      return Failure(ReferenceUnreadable);
    }
    var anchors := CollectAnchors(book.sheets);
    var ranks := CollectRanks(book.sheets);
    if ranks.None? {
      return Failure(ReferenceUnreadable);
    }
    r := Success(Index(anchors, ranks.value));
  }

  function Names(sheets: seq<PriorSheet>): (r: seq<string>)
    ensures |r| == |sheets| && forall i :: 0 <= i < |sheets| ==> r[i] == sheets[i].name
  {
    if sheets == [] then [] else Names(sheets[..|sheets| - 1]) + [sheets[|sheets| - 1].name]
  }

  predicate DistinctNames(sheets: seq<PriorSheet>)
  {
    forall i, j :: 0 <= i < j < |sheets| ==> sheets[i].name != sheets[j].name
  }

  /** A last sheet with another name leaves the anchor stored under `name` as it was. */
  lemma AnchorsOfOtherSheet(sheets: seq<PriorSheet>, name: string)
    requires sheets != [] && sheets[|sheets| - 1].name != name
    ensures var d, d0 := AnchorsOf(sheets), AnchorsOf(sheets[..|sheets| - 1]);
      (name in d.vals <==> name in d0.vals) && (name in d.vals ==> d.vals[name] == d0.vals[name])
  {
  }

  /** The last sheet's anchor is stored under its name. */
  lemma AnchorsOfLastSheet(sheets: seq<PriorSheet>)
    requires sheets != []
    ensures var last := sheets[|sheets| - 1];
      last.name in AnchorsOf(sheets).vals && AnchorsOf(sheets).vals[last.name] == Anchor(last.d1)
  {
  }

  /** When no later sheet reuses its name, a sheet's anchor is the one read from its own D1. */
  lemma {:induction false} AnchorOfSheet(sheets: seq<PriorSheet>, i: int)
    requires 0 <= i < |sheets|
    requires forall j :: i < j < |sheets| ==> sheets[j].name != sheets[i].name
    ensures sheets[i].name in AnchorsOf(sheets).vals
    ensures AnchorsOf(sheets).vals[sheets[i].name] == Anchor(sheets[i].d1)
    decreases |sheets|
  {
    var n := |sheets| - 1;
    if i < n {
      var init := sheets[..n];
      assert init[i] == sheets[i];
      AnchorOfSheet(init, i);
      AnchorsOfOtherSheet(sheets, sheets[i].name);
    } else {
      AnchorsOfLastSheet(sheets);
    }
  }

  /** With distinct sheet names, every sheet adds a new key, so the keys are the names in order. */
  lemma {:induction false} AnchorKeys(sheets: seq<PriorSheet>)
    requires DistinctNames(sheets)
    ensures AnchorsOf(sheets).keys == Names(sheets)
    decreases |sheets|
  {
    if sheets != [] {
      var n := |sheets| - 1;
      var init := sheets[..n];
      assert DistinctNames(init);
      AnchorKeys(init);
      var d := AnchorsOf(init);
      assert sheets[n].name !in d.keys by {
        assert forall i :: 0 <= i < n ==> d.keys[i] == sheets[i].name;
      }
    }
  }

  /** With the distinct sheet names a workbook has, the anchors are listed in sheet order
      and each sheet's anchor is the one read from its own D1. */
  lemma AnchorsInSheetOrder(sheets: seq<PriorSheet>)
    requires DistinctNames(sheets)
    ensures AnchorsOf(sheets).keys == Names(sheets)
    ensures forall i :: 0 <= i < |sheets| ==>
      sheets[i].name in AnchorsOf(sheets).vals && AnchorsOf(sheets).vals[sheets[i].name] == Anchor(sheets[i].d1)
  {
    AnchorKeys(sheets);
    forall i | 0 <= i < |sheets|
      ensures sheets[i].name in AnchorsOf(sheets).vals && AnchorsOf(sheets).vals[sheets[i].name] == Anchor(sheets[i].d1)
    {
      AnchorOfSheet(sheets, i);
    }
  }

  /** Only sheet names are keys of the rank maps. */
  lemma {:induction false} RanksKeys(sheets: seq<PriorSheet>)
    requires Readable(sheets)
    ensures forall k :: k in RanksOf(sheets) ==> k in Names(sheets)
    decreases |sheets|
  {
    if sheets != [] {
      var n := |sheets| - 1;
      var init := sheets[..n];
      assert Readable(init) by {
        assert forall i :: 0 <= i < n ==> sheets[i] == init[i];
      }
      RanksKeys(init);
      assert Names(sheets) == Names(init) + [sheets[n].name];
    }
  }

  /** With distinct sheet names, one sheet has a rank map exactly when it has both headers,
      and the map is the one built from its own rows. */
  lemma {:induction false} RankOfSheet(sheets: seq<PriorSheet>, i: int)
    requires Readable(sheets) && DistinctNames(sheets) && 0 <= i < |sheets|
    ensures sheets[i].name in RanksOf(sheets) <==> SheetRanks(sheets[i].content.value).Some?
    ensures sheets[i].name in RanksOf(sheets) ==>
      RanksOf(sheets)[sheets[i].name] == SheetRanks(sheets[i].content.value).value
    decreases |sheets|
  {
    var n := |sheets| - 1;
    var init := sheets[..n];
    assert Readable(init) && DistinctNames(init) by {
      assert forall j :: 0 <= j < n ==> sheets[j] == init[j];
    }
    if i == n {
      RanksKeys(init);
      assert sheets[n].name !in Names(init) by {
        assert forall j :: 0 <= j < n ==> Names(init)[j] == sheets[j].name;
      }
    } else {
      assert init[i] == sheets[i];
      RankOfSheet(init, i);
      assert sheets[i].name != sheets[n].name;
    }
  }

  /** With distinct sheet names, a sheet has a rank map exactly when it has both headers,
      and the map is the one built from its own rows. */
  lemma RanksPerSheet(sheets: seq<PriorSheet>)
    requires Readable(sheets) && DistinctNames(sheets)
    ensures forall i :: 0 <= i < |sheets| ==>
      (sheets[i].name in RanksOf(sheets) <==> SheetRanks(sheets[i].content.value).Some?)
    ensures forall i :: 0 <= i < |sheets| && sheets[i].name in RanksOf(sheets) ==>
      RanksOf(sheets)[sheets[i].name] == SheetRanks(sheets[i].content.value).value
    ensures forall k :: k in RanksOf(sheets) ==> k in Names(sheets)
  {
    RanksKeys(sheets);
    forall i | 0 <= i < |sheets|
      ensures sheets[i].name in RanksOf(sheets) <==> SheetRanks(sheets[i].content.value).Some?
      ensures sheets[i].name in RanksOf(sheets) ==>
        RanksOf(sheets)[sheets[i].name] == SheetRanks(sheets[i].content.value).value
    {
      RankOfSheet(sheets, i);
    }
  }
}
