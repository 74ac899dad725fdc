/** Lines 93-124: finding the prior-period sheet for a value column and computing each
    fund's rank change against it. */
module Reconcile {
  import opened Base
  import opened Text
  import opened Cells
  import opened OrderedDict
  import opened Ranking

  /** The longest sheet title a workbook accepts. */
  const SheetNameLimit: nat := 31

  /** Line 93: `column[:31]`. */
  function SheetTitle(column: string): (t: string)
    ensures t <= column
    ensures |t| == if |column| <= SheetNameLimit then |column| else SheetNameLimit
  {
    if |column| <= SheetNameLimit then column else column[..SheetNameLimit]
  }

  /** Line 100: the anchor and the title are equal, or either contains the other, ignoring
      case. Equality is a case of containment, so no test takes priority over another and
      only the sheet order decides. */
  predicate AnchorMatches(anchor: string, title: string)
    ensures AnchorMatches(anchor, title) <==>
      Contains(Lower(anchor), Lower(title)) || Contains(Lower(title), Lower(anchor))
  {
    var a, t := Lower(anchor), Lower(title);
    ContainsTrivial(a);
    a == t || Contains(a, t) || Contains(t, a)
  }

  /** An empty anchor (a blank D1) matches every column. */
  lemma EmptyAnchorMatchesAll(title: string)
    ensures AnchorMatches("", title)
  {
    ContainsTrivial(Lower(title));
  }

  /** The first key, in order, whose anchor matches the title. */
  function FirstMatch(keys: seq<string>, anchors: map<string, string>, title: string): Option<string>
    requires forall k :: k in keys ==> k in anchors
  {
    if keys == [] then None
    else if AnchorMatches(anchors[keys[0]], title) then Some(keys[0])
    else FirstMatch(keys[1..], anchors, title)
  }

  /** The key at position `i` is the first whose anchor matches. */
  predicate FirstMatchAt(keys: seq<string>, anchors: map<string, string>, title: string, i: int)
    requires forall k :: k in keys ==> k in anchors
  {
    && 0 <= i < |keys| && AnchorMatches(anchors[keys[i]], title)
    && forall j :: 0 <= j < i ==> !AnchorMatches(anchors[keys[j]], title)
  }

  lemma {:induction false} FirstMatchSpec(keys: seq<string>, anchors: map<string, string>, title: string)
    requires forall k :: k in keys ==> k in anchors
    ensures FirstMatch(keys, anchors, title).None? <==>
      forall i :: 0 <= i < |keys| ==> !AnchorMatches(anchors[keys[i]], title)
    ensures FirstMatch(keys, anchors, title).Some? ==>
      exists i :: FirstMatchAt(keys, anchors, title, i) && keys[i] == FirstMatch(keys, anchors, title).value
    decreases |keys|
  {
    if keys != [] && !AnchorMatches(anchors[keys[0]], title) {
      var rest := keys[1..];
      FirstMatchSpec(rest, anchors, title);
      assert forall i :: 1 <= i < |keys| ==> keys[i] == rest[i - 1];
      if FirstMatch(rest, anchors, title).Some? {
        var i :| FirstMatchAt(rest, anchors, title, i) && rest[i] == FirstMatch(rest, anchors, title).value;
        assert FirstMatchAt(keys, anchors, title, i + 1);
      }
    } else if keys != [] {
      assert FirstMatchAt(keys, anchors, title, 0);
    }
  }

  /** At most one key is the first to match. */
  lemma FirstMatchAtUnique(keys: seq<string>, anchors: map<string, string>, title: string, i: int, j: int)
    requires forall k :: k in keys ==> k in anchors
    requires FirstMatchAt(keys, anchors, title, i) && FirstMatchAt(keys, anchors, title, j)
    ensures i == j
  {
  }

  /** Lines 98-102: the resolved sheet is the first in sheet order whose anchor matches the
      title; there is none exactly when no anchor matches. */
  function Resolve(anchors: Dict<string>, title: string): (r: Option<string>)
    requires anchors.Valid()
    ensures r.None? <==>
      forall i :: 0 <= i < |anchors.keys| ==> !AnchorMatches(anchors.vals[anchors.keys[i]], title)
    ensures r.Some? ==> exists i :: FirstMatchAt(anchors.keys, anchors.vals, title, i) && anchors.keys[i] == r.value
  {
    FirstMatchSpec(anchors.keys, anchors.vals, title);
    FirstMatch(anchors.keys, anchors.vals, title)
  }

  /** Lines 93-102: the loop over the anchors with its `break`. */
  method ResolveSheet(anchors: Dict<string>, column: string) returns (found: Option<string>)
    requires anchors.Valid()
    ensures found == Resolve(anchors, SheetTitle(column))
  {
    var title := SheetTitle(column);
    var keys := anchors.keys;
    found := None;
    var i := 0;
    while i < |keys|
      invariant 0 <= i <= |keys|
      invariant FirstMatch(keys, anchors.vals, title) == FirstMatch(keys[i..], anchors.vals, title)
    {
      assert keys[i..][1..] == keys[i + 1..];
      if AnchorMatches(anchors.vals[keys[i]], title) {
        found := Some(keys[i]);
        break;
      }
      i := i + 1;
    }
  }

  /** The value of the first key, in order, that equals `lowered` once lowered. */
  function FirstFolded(keys: seq<string>, vals: map<string, Cell>, lowered: string): Option<Cell>
    requires forall k :: k in keys ==> k in vals
  {
    if keys == [] then None
    else if Lower(keys[0]) == lowered then Some(vals[keys[0]])
    else FirstFolded(keys[1..], vals, lowered)
  }

  /** Lines 111-124: exact lookup first, then the first key equal to the name ignoring case. */
  function Lookup(m: Dict<Cell>, name: string): (r: Option<Cell>)
    requires m.Valid()
    ensures name in m.vals ==> r == Some(m.vals[name])
  {
    if name in m.vals then Some(m.vals[name]) else FirstFolded(m.keys, m.vals, Lower(name))
  }

  /** Key `i` is the first that matches `name` ignoring case. */
  predicate FirstFoldedAt(keys: seq<string>, name: string, i: int)
  {
    && 0 <= i < |keys| && Lower(keys[i]) == Lower(name)
    && forall j :: 0 <= j < i ==> Lower(keys[j]) != Lower(name)
  }

  lemma {:induction false} FirstFoldedSpec(keys: seq<string>, vals: map<string, Cell>, name: string)
    requires forall k :: k in keys ==> k in vals
    ensures FirstFolded(keys, vals, Lower(name)).None? <==>
      forall i :: 0 <= i < |keys| ==> Lower(keys[i]) != Lower(name)
    ensures FirstFolded(keys, vals, Lower(name)).Some? ==>
      exists i :: FirstFoldedAt(keys, name, i) && FirstFolded(keys, vals, Lower(name)).value == vals[keys[i]]
    decreases |keys|
  {
    if keys != [] && Lower(keys[0]) != Lower(name) {
      var rest := keys[1..];
      FirstFoldedSpec(rest, vals, name);
      assert forall i :: 1 <= i < |keys| ==> keys[i] == rest[i - 1];
      if FirstFolded(rest, vals, Lower(name)).Some? {
        var i :| FirstFoldedAt(rest, name, i) && FirstFolded(rest, vals, Lower(name)).value == vals[rest[i]];
        assert FirstFoldedAt(keys, name, i + 1);
      }
    } else if keys != [] {
      assert FirstFoldedAt(keys, name, 0);
    }
  }

  /** A prior rank is found exactly when some stored name equals the fund's name ignoring
      case; an exact key wins, otherwise the first case-insensitive key in insertion order. */
  lemma LookupSpec(m: Dict<Cell>, name: string)
    requires m.Valid()
    ensures Lookup(m, name).Some? <==> exists k :: k in m.vals && Lower(k) == Lower(name)
    ensures name in m.vals ==> Lookup(m, name) == Some(m.vals[name])
    ensures name !in m.vals && Lookup(m, name).Some? ==>
      exists i :: FirstFoldedAt(m.keys, name, i) && Lookup(m, name).value == m.vals[m.keys[i]]
  {
    FirstFoldedSpec(m.keys, m.vals, name);
    if exists k :: k in m.vals && Lower(k) == Lower(name) {
      var k :| k in m.vals && Lower(k) == Lower(name);
      var i :| 0 <= i < |m.keys| && m.keys[i] == k;
    }
  }

  /** Lines 110-124 for one fund: the exact key, else the case-insensitive scan with `break`. */
  method LookupRank(m: Dict<Cell>, name: string) returns (prior: Option<Cell>)
    requires m.Valid()
    ensures prior == Lookup(m, name)
  {
    if name in m.vals {
      return Some(m.vals[name]);
    }
    var lowered := Lower(name);
    var keys := m.keys;
    prior := None;
    var i := 0;
    while i < |keys|
      invariant 0 <= i <= |keys|
      invariant FirstFolded(keys, m.vals, lowered) == FirstFolded(keys[i..], m.vals, lowered)
    {
      assert keys[i..][1..] == keys[i + 1..];
      if Lower(keys[i]) == lowered {
        prior := Some(m.vals[keys[i]]);
        break;
      }
      i := i + 1;
    }
  }

  /** Line 107: the name a fund is looked up under. */
  function FundName(e: Entry): string
  {
    AsString(e.fund)
  }

  /** The prior rank found for a fund, if any. */
  function PriorRank(m: Dict<Cell>, e: Entry): Option<Cell>
    requires m.Valid()
  {
    Lookup(m, FundName(e))
  }

  /** A prior rank that is not a number makes `old_rank - current_rank` raise. */
  predicate Unusable(prior: Option<Cell>)
  {
    prior.Some? && !prior.value.Num?
  }

  /** Lines 106-124 from row `i` on: overwrite the change of every fund with a numeric prior
      rank by `old_rank - current_rank`, the current rank of row `i` being `i + 1`. */
  function ApplyFrom(ranked: seq<Entry>, m: Dict<Cell>, change: seq<int>, i: nat): (r: Result<seq<int>>)
    requires m.Valid() && |change| == |ranked| && i <= |ranked|
    ensures r.Success? ==> |r.value| == |ranked|
    ensures r.Failure? ==> r.error.RankNotNumeric?
    decreases |ranked| - i
  {
    if i == |ranked| then Success(change)
    else
      match PriorRank(m, ranked[i])
      case None => ApplyFrom(ranked, m, change, i + 1)
      case Some(Num(p)) => ApplyFrom(ranked, m, change[i := p - (i + 1)], i + 1)
      case Some(_) => Failure(RankNotNumeric(FundName(ranked[i])))
  }

  /** The rank change row `j` ends with when `cur` is what it held before. */
  function ChangeAfter(ranked: seq<Entry>, m: Dict<Cell>, cur: int, j: nat): int
    requires m.Valid() && j < |ranked|
  {
    match PriorRank(m, ranked[j])
    case Some(Num(p)) => p - (j + 1)
    case _ => cur
  }

  /** From row `i` on, reconciliation succeeds exactly when no later prior rank is unusable. */
  lemma {:induction false} ApplyFromSucceeds(ranked: seq<Entry>, m: Dict<Cell>, change: seq<int>, i: nat)
    requires m.Valid() && |change| == |ranked| && i <= |ranked|
    ensures ApplyFrom(ranked, m, change, i).Success? <==>
      forall j :: i <= j < |ranked| ==> !Unusable(PriorRank(m, ranked[j]))
    decreases |ranked| - i
  {
    if i < |ranked| && !Unusable(PriorRank(m, ranked[i])) {
      var next := match PriorRank(m, ranked[i]) case Some(Num(p)) => change[i := p - (i + 1)] case _ => change;
      assert ApplyFrom(ranked, m, change, i) == ApplyFrom(ranked, m, next, i + 1);
      ApplyFromSucceeds(ranked, m, next, i + 1);
    }
  }

  /** Reconciliation from row `i` on leaves the rows before `i` alone. */
  lemma {:induction false} ApplyFromPrefix(ranked: seq<Entry>, m: Dict<Cell>, change: seq<int>, i: nat)
    requires m.Valid() && |change| == |ranked| && i <= |ranked|
    requires ApplyFrom(ranked, m, change, i).Success?
    ensures forall j :: 0 <= j < i ==> ApplyFrom(ranked, m, change, i).value[j] == change[j]
    decreases |ranked| - i
  {
    if i < |ranked| {
      match PriorRank(m, ranked[i])
      case None =>
        ApplyFromPrefix(ranked, m, change, i + 1);
      case Some(Num(p)) =>
        ApplyFromPrefix(ranked, m, change[i := p - (i + 1)], i + 1);
    }
  }

  /** A successful reconciliation from row `i` on gives every later row its `ChangeAfter`. */
  lemma {:induction false} ApplyFromValues(ranked: seq<Entry>, m: Dict<Cell>, change: seq<int>, i: nat)
    requires m.Valid() && |change| == |ranked| && i <= |ranked|
    requires ApplyFrom(ranked, m, change, i).Success?
    ensures forall j :: i <= j < |ranked| ==>
      ApplyFrom(ranked, m, change, i).value[j] == ChangeAfter(ranked, m, change[j], j)
    decreases |ranked| - i
  {
    if i < |ranked| {
      var next := match PriorRank(m, ranked[i]) case Some(Num(p)) => change[i := p - (i + 1)] case _ => change;
      assert ApplyFrom(ranked, m, change, i) == ApplyFrom(ranked, m, next, i + 1);
      ApplyFromValues(ranked, m, next, i + 1);
      ApplyFromPrefix(ranked, m, next, i + 1);
      var out := ApplyFrom(ranked, m, next, i + 1).value;
      forall j | i <= j < |ranked|
        ensures out[j] == ChangeAfter(ranked, m, change[j], j)
      {
        if j == i {
          assert out[i] == next[i] == ChangeAfter(ranked, m, change[i], i);
        } else {
          assert next[j] == change[j];
        }
      }
    }
  }

  /** A failed reconciliation from row `i` on names a fund whose prior rank is unusable. */
  lemma {:induction false} ApplyFromFails(ranked: seq<Entry>, m: Dict<Cell>, change: seq<int>, i: nat)
    requires m.Valid() && |change| == |ranked| && i <= |ranked|
    requires ApplyFrom(ranked, m, change, i).Failure?
    ensures exists j ::
      && i <= j < |ranked| && Unusable(PriorRank(m, ranked[j]))
      && ApplyFrom(ranked, m, change, i).error == RankNotNumeric(FundName(ranked[j]))
    decreases |ranked| - i
  {
    match PriorRank(m, ranked[i])
    case None =>
      ApplyFromFails(ranked, m, change, i + 1);
    case Some(Num(p)) =>
      ApplyFromFails(ranked, m, change[i := p - (i + 1)], i + 1);
    case Some(_) =>
      assert Unusable(PriorRank(m, ranked[i]));
  }

  lemma ApplyFromSpec(ranked: seq<Entry>, m: Dict<Cell>, change: seq<int>, i: nat)
    requires m.Valid() && |change| == |ranked| && i <= |ranked|
    ensures ApplyFrom(ranked, m, change, i).Success? <==>
      forall j :: i <= j < |ranked| ==> !Unusable(PriorRank(m, ranked[j]))
    ensures ApplyFrom(ranked, m, change, i).Success? ==>
      var out := ApplyFrom(ranked, m, change, i).value;
      |out| == |ranked|
      && (forall j :: 0 <= j < i ==> out[j] == change[j])
      && (forall j :: i <= j < |ranked| ==> out[j] == ChangeAfter(ranked, m, change[j], j))
    ensures ApplyFrom(ranked, m, change, i).Failure? ==>
      exists j :: i <= j < |ranked| && Unusable(PriorRank(m, ranked[j]))
        && ApplyFrom(ranked, m, change, i).error == RankNotNumeric(FundName(ranked[j]))
  {
    ApplyFromSucceeds(ranked, m, change, i);
    if ApplyFrom(ranked, m, change, i).Success? {
      ApplyFromPrefix(ranked, m, change, i);
      ApplyFromValues(ranked, m, change, i);
    } else {
      ApplyFromFails(ranked, m, change, i);
    }
  }

  /** Lines 106-124 over all ranked rows. */
  function ApplyChanges(ranked: seq<Entry>, m: Dict<Cell>, change: seq<int>): (r: Result<seq<int>>)
    requires m.Valid() && |change| == |ranked|
    ensures r.Success? ==> |r.value| == |ranked|
    ensures r.Failure? ==> r.error.RankNotNumeric?
  {
    ApplyFrom(ranked, m, change, 0)
  }

  /** The fund at rank `j + 1` gets `prior - (j + 1)` when a numeric prior rank is found and
      keeps its value otherwise; no other row is touched. A non-numeric prior rank aborts. */
  lemma ReconcileSpec(ranked: seq<Entry>, m: Dict<Cell>, change: seq<int>)
    requires m.Valid() && |change| == |ranked|
    ensures ApplyChanges(ranked, m, change).Success? <==>
      forall j :: 0 <= j < |ranked| ==> !Unusable(PriorRank(m, ranked[j]))
    ensures ApplyChanges(ranked, m, change).Success? ==>
      var out := ApplyChanges(ranked, m, change).value;
      |out| == |ranked| && forall j :: 0 <= j < |ranked| ==> out[j] == ChangeAfter(ranked, m, change[j], j)
    ensures ApplyChanges(ranked, m, change).Failure? ==>
      exists j :: 0 <= j < |ranked| && Unusable(PriorRank(m, ranked[j]))
        && ApplyChanges(ranked, m, change).error == RankNotNumeric(FundName(ranked[j]))
  {
    ApplyFromSpec(ranked, m, change, 0);
  }

  /** Lines 106-124: walk the ranked rows and overwrite their 'Rank Change' cells in place. */
  method ReconcileInPlace(ranked: seq<Entry>, m: Dict<Cell>, change: array<int>) returns (err: Option<Error>)
    requires m.Valid() && change.Length == |ranked|
    modifies change
    ensures ApplyChanges(ranked, m, old(change[..])).Success? ==>
      err == None && change[..] == ApplyChanges(ranked, m, old(change[..])).value
    ensures ApplyChanges(ranked, m, old(change[..])).Failure? ==>
      err == Some(ApplyChanges(ranked, m, old(change[..])).error)
  {
    var i := 0;
    while i < |ranked|
      invariant 0 <= i <= |ranked|
      invariant ApplyFrom(ranked, m, change[..], i) == ApplyChanges(ranked, m, old(change[..]))
    {
      var name := FundName(ranked[i]);
      var prior := LookupRank(m, name);
      match prior {
        case None =>
        case Some(Num(p)) =>
          change[i] := p - (i + 1);
        case Some(_) =>
          return Some(RankNotNumeric(name));
      }
      i := i + 1;
    }
    err := None;
  }
}
