/**
 When the status walk shows what the composer composes.

 The composer's removal takes one occurrence, the status walk's takes the only one it
 keeps.  Occurrences that a last removal leaves behind are what the walks differ in.
 */
module Agreement {
  import opened Lists
  import opened Overlays

  ghost predicate Agree(base: seq<Name>, edits: seq<Edit>) {
    EditedIfAbsent(base, edits) == Dedup(Edited(base, edits))
  }

  lemma AddedTwice(n: Name)
    ensures Edited([], [Add(n), Add(n)]) == [n, n] && EditedIfAbsent([], [Add(n), Add(n)]) == [n]
  {
    var none: seq<Edit> := [];
    EditedSnoc([], none, Add(n));
    EditedSnoc([], [Add(n)], Add(n));
    assert none + [Add(n)] == [Add(n)] && [Add(n)] + [Add(n)] == [Add(n), Add(n)];
  }

  /** Adding a name twice and removing it once leaves it for the composer only. */
  lemma RepeatedRemovalSeparates(n: Name)
    ensures !Agree([], [Add(n), Add(n), Remove(n)])
    ensures Edited([], [Add(n), Add(n), Remove(n)]) == [n]
    ensures EditedIfAbsent([], [Add(n), Add(n), Remove(n)]) == []
  {
    AddedTwice(n);
    EditedSnoc([], [Add(n), Add(n)], Remove(n));
    assert [Add(n), Add(n)] + [Remove(n)] == [Add(n), Add(n), Remove(n)];
    IndexOfIsFirst([n, n], n, 0);
    IndexOfIsFirst([n], n, 0);
    assert n in Elems([n]);
  }

  // ------------------------------------------------------- what removals leave behind

  function RemovalCount(edits: seq<Edit>, x: Name): nat {
    if edits == [] then 0
    else RemovalCount(edits[..|edits| - 1], x) + (if edits[|edits| - 1] == Remove(x) then 1 else 0)
  }

  /**
   How many occurrences of `x` the last removal of `x` left in the composer's list, once
   the status walk had removed every copy its base list gave it.
   */
  function LeftBehind(base: seq<Name>, edits: seq<Edit>, x: Name): nat {
    if edits == [] then 0
    else if edits[|edits| - 1] != Remove(x) then LeftBehind(base, edits[..|edits| - 1], x)
    else if RemovalCount(edits, x) < Count(base, x) then 0
    else Count(Edited(base, edits), x)
  }

  lemma TrackSnoc(base: seq<Name>, edits: seq<Edit>, e: Edit, x: Name)
    ensures RemovalCount(edits + [e], x) == RemovalCount(edits, x) + (if e == Remove(x) then 1 else 0)
    ensures LeftBehind(base, edits + [e], x) ==
            if e != Remove(x) then LeftBehind(base, edits, x)
            else if RemovalCount(edits + [e], x) < Count(base, x) then 0
            else Count(Edited(base, edits + [e]), x)
  {
    assert (edits + [e])[..|edits|] == edits;
  }

  /** How the occurrences in the two lists correspond: the status walk skips what was left behind. */
  ghost predicate Tracks(base: seq<Name>, edits: seq<Edit>, x: Name) {
    var composed, shown := Count(Edited(base, edits), x), Count(EditedIfAbsent(base, edits), x);
    var left, removals, copies := LeftBehind(base, edits, x), RemovalCount(edits, x), Count(base, x);
    && left <= composed
    && (removals < copies ==> left == 0 && shown == copies - removals && shown <= composed)
    && (removals >= copies ==> shown == if composed > left then 1 else 0)
  }

  lemma TracksAddition(base: seq<Name>, edits: seq<Edit>, n: Name, x: Name)
    requires Tracks(base, edits, x)
    ensures Tracks(base, edits + [Add(n)], x)
  {
    var composed, shown := Edited(base, edits), EditedIfAbsent(base, edits);
    EditedSnoc(base, edits, Add(n));
    TrackSnoc(base, edits, Add(n), x);
    CountSnoc(composed, n, x);
    CountSnoc(shown, n, x);
    CountZero(shown, n);
  }

  lemma TracksRemoval(base: seq<Name>, edits: seq<Edit>, n: Name, x: Name)
    requires Tracks(base, edits, x)
    ensures Tracks(base, edits + [Remove(n)], x)
  {
    var composed, shown := Edited(base, edits), EditedIfAbsent(base, edits);
    EditedSnoc(base, edits, Remove(n));
    TrackSnoc(base, edits, Remove(n), x);
    RemoveFirstCount(composed, n, x);
    RemoveFirstCount(shown, n, x);
    CountZero(composed, n);
    CountZero(shown, n);
  }

  lemma {:induction false} AlwaysTracks(base: seq<Name>, edits: seq<Edit>, x: Name)
    ensures Tracks(base, edits, x)
  {
    if edits != [] {
      var front, last := edits[..|edits| - 1], edits[|edits| - 1];
      assert edits == front + [last];
      AlwaysTracks(base, front, x);
      if last.Add? {
        TracksAddition(base, front, last.name, x);
      } else {
        TracksRemoval(base, front, last.name, x);
      }
    }
  }

  /**
   `px` and `py` are the positions of two names in one list, `qx` and `qy` those in the
   other, where `lx` and `ly` of them are skipped: they stand in the same order.
   */
  ghost predicate Aligned(px: seq<nat>, py: seq<nat>, qx: seq<nat>, lx: nat, qy: seq<nat>, ly: nat) {
    && lx + |px| <= |qx| && ly + |py| <= |qy|
    && forall j, i :: 0 <= j < |px| && 0 <= i < |py| ==> (px[j] < py[i] <==> qx[lx + j] < qy[ly + i])
  }

  lemma AlignedExtends(px: seq<nat>, py: seq<nat>, qx: seq<nat>, lx: nat, qy: seq<nat>, ly: nat, qx': seq<nat>,
      qy': seq<nat>)
    requires Aligned(px, py, qx, lx, qy, ly) && qx <= qx' && qy <= qy'
    ensures Aligned(px, py, qx', lx, qy', ly)
  {
  }

  /** The positions of a name after an element at index `last`, which may be the name itself, is appended. */
  function Appended(p: seq<nat>, own: bool, last: nat): seq<nat> {
    if own then p + [last] else p
  }

  lemma AlignedAppends(px: seq<nat>, py: seq<nat>, qx: seq<nat>, lx: nat, qy: seq<nat>, ly: nat,
                       ownX: bool, ownY: bool, last: nat, last': nat)
    requires Aligned(px, py, qx, lx, qy, ly)
    requires Below(px, last) && Below(py, last) && Below(qx, last') && Below(qy, last')
    requires ownX ==> px == [] && lx == |qx|
    requires ownY ==> py == [] && ly == |qy|
    ensures Aligned(Appended(px, ownX, last), Appended(py, ownY, last),
                    Appended(qx, ownX, last'), lx, Appended(qy, ownY, last'), ly)
  {
  }

  lemma AlignedLosesLeftover(px: seq<nat>, py: seq<nat>, qx: seq<nat>, lx: nat, qy: seq<nat>, ly: nat,
                             qx': seq<nat>, qy': seq<nat>, gone: nat)
    requires Aligned(px, py, qx, lx, qy, ly) && Moves(qx, qx', false, gone) && Moves(qy, qy', false, gone)
    ensures Aligned(px, py, qx', lx, qy', ly)
  {
  }

  lemma AlignedTailX(px: seq<nat>, py: seq<nat>, qx: seq<nat>, lx: nat, qy: seq<nat>, ly: nat)
    requires Aligned(px, py, qx, lx, qy, ly) && px != []
    ensures Aligned(px[1..], py, qx[1..], lx, qy, ly)
  {
    forall j, i | 0 <= j < |px[1..]| && 0 <= i < |py|
      ensures px[1..][j] < py[i] <==> qx[1..][lx + j] < qy[ly + i]
    {
      assert px[j + 1] < py[i] <==> qx[lx + (j + 1)] < qy[ly + i];
    }
  }

  lemma AlignedTailY(px: seq<nat>, py: seq<nat>, qx: seq<nat>, lx: nat, qy: seq<nat>, ly: nat)
    requires Aligned(px, py, qx, lx, qy, ly) && py != []
    ensures Aligned(px, py[1..], qx, lx, qy[1..], ly)
  {
    forall j, i | 0 <= j < |px| && 0 <= i < |py[1..]|
      ensures px[j] < py[1..][i] <==> qx[lx + j] < qy[1..][ly + i]
    {
      assert px[j] < py[i + 1] <==> qx[lx + j] < qy[ly + (i + 1)];
    }
  }

  lemma AlignedTail(px: seq<nat>, py: seq<nat>, qx: seq<nat>, lx: nat, qy: seq<nat>, ly: nat, ownX: bool, ownY: bool)
    requires Aligned(px, py, qx, lx, qy, ly) && (ownX ==> px != []) && (ownY ==> py != [])
    ensures Aligned(Remaining(px, ownX), Remaining(py, ownY), Remaining(qx, ownX), lx, Remaining(qy, ownY), ly)
  {
    if ownX {
      AlignedTailX(px, py, qx, lx, qy, ly);
    }
    if ownY {
      AlignedTailY(Remaining(px, ownX), py, Remaining(qx, ownX), lx, qy, ly);
    }
  }

  lemma AlignedShifts(px: seq<nat>, py: seq<nat>, qx: seq<nat>, lx: nat, qy: seq<nat>, ly: nat, gone: nat, gone': nat)
    requires Aligned(px, py, qx, lx, qy, ly)
    requires gone !in px && gone !in py && gone' !in qx && gone' !in qy
    ensures Aligned(Shift(px, gone), Shift(py, gone), Shift(qx, gone'), lx, Shift(qy, gone'), ly)
  {
    forall j, i | 0 <= j < |px| && 0 <= i < |py|
      ensures Shift(px, gone)[j] < Shift(py, gone)[i] <==> Shift(qx, gone')[lx + j] < Shift(qy, gone')[ly + i]
    {
      assert px[j] in px && py[i] in py && qx[lx + j] in qx && qy[ly + i] in qy;
    }
  }

  ghost predicate Alike(base: seq<Name>, edits: seq<Edit>, x: Name, y: Name) {
    var shown, composed := EditedIfAbsent(base, edits), Edited(base, edits);
    Aligned(Positions(shown, x), Positions(shown, y),
            Positions(composed, x), LeftBehind(base, edits, x), Positions(composed, y), LeftBehind(base, edits, y))
  }

  /** A name that the status walk lacks has only left-over occurrences. */
  lemma AbsentIsLeft(base: seq<Name>, edits: seq<Edit>, x: Name)
    requires x !in EditedIfAbsent(base, edits)
    ensures Count(EditedIfAbsent(base, edits), x) == 0
    ensures LeftBehind(base, edits, x) == Count(Edited(base, edits), x)
  {
    AlwaysTracks(base, edits, x);
    CountZero(EditedIfAbsent(base, edits), x);
  }

  lemma AlikeAfterAddition(base: seq<Name>, edits: seq<Edit>, n: Name, x: Name, y: Name)
    requires Alike(base, edits, x, y)
    ensures Alike(base, edits + [Add(n)], x, y)
  {
    var shown, composed := EditedIfAbsent(base, edits), Edited(base, edits);
    var px, py, qx, qy := Positions(shown, x), Positions(shown, y), Positions(composed, x), Positions(composed, y);
    var lx, ly := LeftBehind(base, edits, x), LeftBehind(base, edits, y);
    EditedSnoc(base, edits, Add(n));
    TrackSnoc(base, edits, Add(n), x);
    TrackSnoc(base, edits, Add(n), y);
    PositionsSnoc(composed, n, x);
    PositionsSnoc(composed, n, y);
    if n in shown {
      AlignedExtends(px, py, qx, lx, qy, ly, Positions(composed + [n], x), Positions(composed + [n], y));
    } else {
      AbsentIsLeft(base, edits, n);
      PositionsSnoc(shown, n, x);
      PositionsSnoc(shown, n, y);
      PositionsCount(shown, x);
      PositionsCount(shown, y);
      PositionsCount(composed, x);
      PositionsCount(composed, y);
      AlignedAppends(px, py, qx, lx, qy, ly, n == x, n == y, |shown|, |composed|);
    }
  }

  /** A removal leaves what it left behind, for a name the status walk still shows. */
  lemma LeftAfterRemoval(base: seq<Name>, edits: seq<Edit>, n: Name, x: Name)
    requires Count(EditedIfAbsent(base, edits + [Remove(n)]), x) > 0
    ensures LeftBehind(base, edits + [Remove(n)], x) == LeftBehind(base, edits, x)
    ensures n == x ==> n in EditedIfAbsent(base, edits)
  {
    AlwaysTracks(base, edits, x);
    AlwaysTracks(base, edits + [Remove(n)], x);
    TrackSnoc(base, edits, Remove(n), x);
    EditedSnoc(base, edits, Remove(n));
    CountZero(EditedIfAbsent(base, edits), x);
  }

  lemma AlikeWhenGone(base: seq<Name>, edits: seq<Edit>, x: Name, y: Name)
    requires Count(EditedIfAbsent(base, edits), x) == 0 || Count(EditedIfAbsent(base, edits), y) == 0
    ensures Alike(base, edits, x, y)
  {
    var shown, composed := EditedIfAbsent(base, edits), Edited(base, edits);
    AlwaysTracks(base, edits, x);
    AlwaysTracks(base, edits, y);
    PositionsCount(shown, x);
    PositionsCount(shown, y);
    PositionsCount(composed, x);
    PositionsCount(composed, y);
  }

  /** Both lists lose their first `n`. */
  lemma AlignedShrinks(shown: seq<Name>, composed: seq<Name>, n: Name, x: Name, lx: nat, y: Name, ly: nat)
    requires n in shown && n in composed
    requires Aligned(Positions(shown, x), Positions(shown, y), Positions(composed, x), lx, Positions(composed, y), ly)
    ensures Aligned(Positions(RemoveFirst(shown, n), x), Positions(RemoveFirst(shown, n), y),
                    Positions(RemoveFirst(composed, n), x), lx, Positions(RemoveFirst(composed, n), y), ly)
  {
    var px, py, qx, qy := Positions(shown, x), Positions(shown, y), Positions(composed, x), Positions(composed, y);
    PositionsAfterRemoval(shown, n, x);
    PositionsAfterRemoval(shown, n, y);
    PositionsAfterRemoval(composed, n, x);
    PositionsAfterRemoval(composed, n, y);
    AlignedTail(px, py, qx, lx, qy, ly, x == n, y == n);
    AlignedShifts(Remaining(px, x == n), Remaining(py, y == n), Remaining(qx, x == n), lx, Remaining(qy, y == n), ly,
                  IndexOf(shown, n), IndexOf(composed, n));
  }

  lemma AlikeAfterRemoval(base: seq<Name>, edits: seq<Edit>, n: Name, x: Name, y: Name)
    requires Alike(base, edits, x, y)
    ensures Alike(base, edits + [Remove(n)], x, y)
  {
    var shown, composed := EditedIfAbsent(base, edits), Edited(base, edits);
    var lx, ly := LeftBehind(base, edits, x), LeftBehind(base, edits, y);
    EditedSnoc(base, edits, Remove(n));
    if Count(RemoveFirst(shown, n), x) == 0 || Count(RemoveFirst(shown, n), y) == 0 {
      AlikeWhenGone(base, edits + [Remove(n)], x, y);
    } else {
      LeftAfterRemoval(base, edits, n, x);
      LeftAfterRemoval(base, edits, n, y);
      if n in shown {
        AlwaysTracks(base, edits, n);
        CountZero(shown, n);
        CountZero(composed, n);
        AlignedShrinks(shown, composed, n, x, lx, y, ly);
      } else if n in composed {
        PositionsAfterRemoval(composed, n, x);
        PositionsAfterRemoval(composed, n, y);
        var after := RemoveFirst(composed, n);
        AlignedLosesLeftover(Positions(shown, x), Positions(shown, y),
                             Positions(composed, x), lx, Positions(composed, y), ly,
                             Positions(after, x), Positions(after, y), IndexOf(composed, n));
      }
    }
  }

  lemma {:induction false} AlwaysAlike(base: seq<Name>, edits: seq<Edit>, x: Name, y: Name)
    ensures Alike(base, edits, x, y)
  {
    if edits != [] {
      var front, last := edits[..|edits| - 1], edits[|edits| - 1];
      assert edits == front + [last];
      AlwaysAlike(base, front, x, y);
      if last.Add? {
        AlikeAfterAddition(base, front, last.name, x, y);
      } else {
        AlikeAfterRemoval(base, front, last.name, x, y);
      }
    }
  }

  // ------------------------------------------------------------- when the results agree

  /** A name is shown exactly when the composer holds more of it than was left behind. */
  lemma ShownIffMoreThanLeft(base: seq<Name>, edits: seq<Edit>, x: Name)
    ensures x in EditedIfAbsent(base, edits) <==> LeftBehind(base, edits, x) < Count(Edited(base, edits), x)
  {
    AlwaysTracks(base, edits, x);
    CountZero(EditedIfAbsent(base, edits), x);
  }

  /** Both results hold the same names. */
  ghost predicate NamesAgree(base: seq<Name>, edits: seq<Edit>) {
    forall x :: x in EditedIfAbsent(base, edits) <==> x in Edited(base, edits)
  }

  /** Every name that is composed has an occurrence that no removal left behind. */
  ghost predicate NoneOnlyLeft(base: seq<Name>, edits: seq<Edit>) {
    forall x :: x in Edited(base, edits) ==> LeftBehind(base, edits, x) < Count(Edited(base, edits), x)
  }

  lemma NameAgrees(base: seq<Name>, edits: seq<Edit>, x: Name)
    ensures (x in EditedIfAbsent(base, edits) <==> x in Edited(base, edits)) <==>
            (x in Edited(base, edits) ==> LeftBehind(base, edits, x) < Count(Edited(base, edits), x))
  {
    ShownIffMoreThanLeft(base, edits, x);
    CountZero(Edited(base, edits), x);
  }

  lemma NamesAgreeIff(base: seq<Name>, edits: seq<Edit>)
    ensures NamesAgree(base, edits) <==> NoneOnlyLeft(base, edits)
  {
    if NamesAgree(base, edits) {
      forall x | x in Edited(base, edits)
        ensures LeftBehind(base, edits, x) < Count(Edited(base, edits), x)
      {
        NameAgrees(base, edits, x);
      }
    }
    if NoneOnlyLeft(base, edits) {
      forall x
        ensures x in EditedIfAbsent(base, edits) <==> x in Edited(base, edits)
      {
        NameAgrees(base, edits, x);
      }
    }
  }

  /** Every repetition in the base list has been removed. */
  ghost predicate RepeatsRemoved(base: seq<Name>, edits: seq<Edit>) {
    forall x :: Count(base, x) <= RemovalCount(edits, x) + 1
  }

  lemma DistinctIff(base: seq<Name>, edits: seq<Edit>)
    ensures Distinct(EditedIfAbsent(base, edits)) <==> RepeatsRemoved(base, edits)
  {
    var shown := EditedIfAbsent(base, edits);
    DistinctCounts(shown);
    if Distinct(shown) {
      forall x
        ensures Count(base, x) <= RemovalCount(edits, x) + 1
      {
        AlwaysTracks(base, edits, x);
        assert Count(shown, x) <= 1;
      }
    }
    if RepeatsRemoved(base, edits) {
      forall x
        ensures Count(shown, x) <= 1
      {
        AlwaysTracks(base, edits, x);
        assert Count(base, x) <= RemovalCount(edits, x) + 1;
      }
    }
  }

  /** Where the first occurrence of `x` stands that no removal left behind. */
  function ShownAt(base: seq<Name>, edits: seq<Edit>, x: Name): int {
    var p, left := Positions(Edited(base, edits), x), LeftBehind(base, edits, x);
    if left < |p| then p[left] else -1
  }

  lemma ShownAtOrders(base: seq<Name>, edits: seq<Edit>, x: Name, y: Name)
    requires x in EditedIfAbsent(base, edits) && y in EditedIfAbsent(base, edits)
    ensures IndexOf(EditedIfAbsent(base, edits), x) < IndexOf(EditedIfAbsent(base, edits), y) <==>
            ShownAt(base, edits, x) < ShownAt(base, edits, y)
  {
    AlwaysAlike(base, edits, x, y);
    FirstPosition(EditedIfAbsent(base, edits), x);
    FirstPosition(EditedIfAbsent(base, edits), y);
  }

  /** What removals left behind puts no name before another that is shown first. */
  ghost predicate OrderAgrees(base: seq<Name>, edits: seq<Edit>) {
    var composed := Edited(base, edits);
    forall x, y :: x in composed && y in composed && ShownAt(base, edits, x) < ShownAt(base, edits, y) ==>
      IndexOf(composed, x) < IndexOf(composed, y)
  }

  lemma PairAgrees(base: seq<Name>, edits: seq<Edit>, x: Name, y: Name)
    requires NamesAgree(base, edits) && x in Edited(base, edits) && y in Edited(base, edits)
    ensures
      var shown, composed := EditedIfAbsent(base, edits), Edited(base, edits);
      && x in shown && y in shown && x in Dedup(composed) && y in Dedup(composed)
      && (IndexOf(shown, x) < IndexOf(shown, y) <==> ShownAt(base, edits, x) < ShownAt(base, edits, y))
      && (IndexOf(Dedup(composed), x) < IndexOf(Dedup(composed), y) <==> IndexOf(composed, x) < IndexOf(composed, y))
  {
    ShownAtOrders(base, edits, x, y);
    DedupOrder(Edited(base, edits), x, y);
  }

  lemma OrderAgreesForward(base: seq<Name>, edits: seq<Edit>)
    requires NamesAgree(base, edits) && OrderAgrees(base, edits)
    ensures SameOrder(EditedIfAbsent(base, edits), Dedup(Edited(base, edits)))
  {
    var shown, composed := EditedIfAbsent(base, edits), Edited(base, edits);
    assert forall x :: x in Dedup(composed) <==> x in Elems(Dedup(composed));
    forall x, y | x in shown && y in shown && IndexOf(shown, x) < IndexOf(shown, y)
      ensures IndexOf(Dedup(composed), x) < IndexOf(Dedup(composed), y)
    {
      PairAgrees(base, edits, x, y);
    }
  }

  lemma OrderAgreesBack(base: seq<Name>, edits: seq<Edit>)
    requires NamesAgree(base, edits) && Agree(base, edits)
    ensures OrderAgrees(base, edits)
  {
    var composed := Edited(base, edits);
    forall x, y | x in composed && y in composed && ShownAt(base, edits, x) < ShownAt(base, edits, y)
      ensures IndexOf(composed, x) < IndexOf(composed, y)
    {
      PairAgrees(base, edits, x, y);
    }
  }

  /**
   Exactly when the traits shown are the traits composed, in order, for any base list and
   any edits: the repetitions of the base list are removed, no name is composed only
   because a removal left it behind, and what was left behind puts no name before another.
   */
  lemma ResultsAgreeIff(base: seq<Name>, edits: seq<Edit>)
    ensures Agree(base, edits) <==> RepeatsRemoved(base, edits) && NoneOnlyLeft(base, edits) && OrderAgrees(base, edits)
  {
    var shown, composed := EditedIfAbsent(base, edits), Edited(base, edits);
    NamesAgreeIff(base, edits);
    DistinctIff(base, edits);
    if Agree(base, edits) {
      assert forall x :: x in shown <==> x in Elems(Dedup(composed));
      OrderAgreesBack(base, edits);
    } else if RepeatsRemoved(base, edits) && NoneOnlyLeft(base, edits) && OrderAgrees(base, edits) {
      OrderAgreesForward(base, edits);
      SameOrderIsSame(shown, Dedup(composed));
    }
  }

  // ------------------------------------------------------- the condition edit by edit

  /** Edit `k` is the last about its name. */
  ghost predicate LastEdit(edits: seq<Edit>, k: int) {
    0 <= k < |edits| && forall j :: k < j < |edits| ==> edits[j].name != edits[k].name
  }

  /** Edit `k` is the last removal of its name. */
  ghost predicate LastRemoval(edits: seq<Edit>, k: int) {
    0 <= k < |edits| && edits[k].Remove? && forall j :: k < j < |edits| ==> edits[j] != edits[k]
  }

  /** Removal `k` meets its name at most once in the composer's list. */
  ghost predicate MeetsOnce(base: seq<Name>, edits: seq<Edit>, k: int)
    requires 0 <= k < |edits|
  {
    Count(Edited(base, edits[..k]), edits[k].name) <= 1
  }

  lemma CountAfterRemoval(base: seq<Name>, edits: seq<Edit>, k: nat)
    requires k < |edits| && edits[k].Remove?
    ensures Count(Edited(base, edits[..k + 1]), edits[k].name) == 0 <==> MeetsOnce(base, edits, k)
  {
    assert edits[..k + 1] == edits[..k] + [edits[k]];
    EditedSnoc(base, edits[..k], edits[k]);
    RemoveFirstCount(Edited(base, edits[..k]), edits[k].name, edits[k].name);
    CountZero(Edited(base, edits[..k]), edits[k].name);
  }

  /** Without repetition in the base list, what is left behind is what the last removal left. */
  lemma {:induction false} LeftByLastRemoval(base: seq<Name>, edits: seq<Edit>, x: Name, k: nat)
    requires Distinct(base) && LastRemoval(edits, k) && edits[k].name == x
    ensures LeftBehind(base, edits, x) == Count(Edited(base, edits[..k + 1]), x)
  {
    var front, last := edits[..|edits| - 1], edits[|edits| - 1];
    if k < |front| {
      LeftByLastRemoval(base, front, x, k);
      assert front[..k + 1] == edits[..k + 1];
      assert last != Remove(x);
    } else {
      DistinctCounts(base);
      assert Count(base, x) <= 1 && RemovalCount(edits, x) >= 1;
      assert edits[..k + 1] == edits;
    }
  }

  lemma {:induction false} UnchangedSince(base: seq<Name>, edits: seq<Edit>, x: Name, k: nat)
    requires k <= |edits| && forall j :: k <= j < |edits| ==> edits[j].name != x
    ensures Count(Edited(base, edits), x) == Count(Edited(base, edits[..k]), x)
  {
    if k == |edits| {
      assert edits[..k] == edits;
    } else {
      var front, last := edits[..|edits| - 1], edits[|edits| - 1];
      assert edits == front + [last] && front[..k] == edits[..k];
      UnchangedSince(base, front, x, k);
      EditedSnoc(base, front, last);
      if last.Add? {
        CountSnoc(Edited(base, front), last.name, x);
      } else {
        RemoveFirstCount(Edited(base, front), last.name, x);
      }
    }
  }

  lemma LastEditOf(edits: seq<Edit>, x: Name) returns (k: int)
    ensures -1 <= k < |edits| && forall j :: k < j < |edits| ==> edits[j].name != x
    ensures k >= 0 ==> edits[k].name == x && LastEdit(edits, k)
  {
    k := |edits| - 1;
    while k >= 0 && edits[k].name != x
      invariant -1 <= k < |edits| && forall j :: k < j < |edits| ==> edits[j].name != x
    {
      k := k - 1;
    }
  }

  lemma LastRemovalOf(edits: seq<Edit>, x: Name) returns (k: int)
    ensures -1 <= k < |edits| && forall j :: k < j < |edits| ==> edits[j] != Remove(x)
    ensures k >= 0 ==> edits[k] == Remove(x) && LastRemoval(edits, k)
  {
    k := |edits| - 1;
    while k >= 0 && edits[k] != Remove(x)
      invariant -1 <= k < |edits| && forall j :: k < j < |edits| ==> edits[j] != Remove(x)
    {
      k := k - 1;
    }
  }

  lemma {:induction false} NeverRemoved(base: seq<Name>, edits: seq<Edit>, x: Name)
    requires forall j :: 0 <= j < |edits| ==> edits[j] != Remove(x)
    ensures LeftBehind(base, edits, x) == 0
  {
    if edits != [] {
      NeverRemoved(base, edits[..|edits| - 1], x);
    }
  }

  lemma MoreAfterAddition(base: seq<Name>, edits: seq<Edit>, x: Name, k: nat)
    requires LastEdit(edits, k) && edits[k] == Add(x)
    ensures LeftBehind(base, edits, x) < Count(Edited(base, edits), x)
  {
    var upTo := edits[..k + 1];
    UnchangedSince(base, edits, x, k + 1);
    LeftUnchangedSince(base, edits, x, k + 1);
    assert upTo == edits[..k] + [Add(x)];
    EditedSnoc(base, edits[..k], Add(x));
    TrackSnoc(base, edits[..k], Add(x), x);
    CountSnoc(Edited(base, edits[..k]), x, x);
    AlwaysTracks(base, edits[..k], x);
  }

  lemma {:induction false} LeftUnchangedSince(base: seq<Name>, edits: seq<Edit>, x: Name, k: nat)
    requires k <= |edits| && forall j :: k <= j < |edits| ==> edits[j].name != x
    ensures LeftBehind(base, edits, x) == LeftBehind(base, edits[..k], x)
  {
    if k == |edits| {
      assert edits[..k] == edits;
    } else {
      var front := edits[..|edits| - 1];
      assert front[..k] == edits[..k];
      LeftUnchangedSince(base, front, x, k);
    }
  }

  /** One name: it is composed but not shown exactly when its last edit is a removal that met it more than once. */
  lemma NameAgreesIff(base: seq<Name>, edits: seq<Edit>, x: Name)
    requires Distinct(base)
    ensures (x in EditedIfAbsent(base, edits) <==> x in Edited(base, edits)) <==>
            forall k :: LastEdit(edits, k) && edits[k] == Remove(x) ==> MeetsOnce(base, edits, k)
  {
    var k := LastEditOf(edits, x);
    ShownIffMoreThanLeft(base, edits, x);
    CountZero(Edited(base, edits), x);
    if k < 0 {
      NeverRemoved(base, edits, x);
    } else if edits[k].Add? {
      MoreAfterAddition(base, edits, x, k);
      assert forall j :: LastEdit(edits, j) && edits[j].name == x ==> j == k;
    } else {
      LeftByLastRemoval(base, edits, x, k);
      UnchangedSince(base, edits, x, k + 1);
      CountAfterRemoval(base, edits, k);
      assert forall j :: LastEdit(edits, j) && edits[j].name == x ==> j == k;
    }
  }

  /**
   For a base list without repetition: both results hold the same names exactly when every
   removal that is the last edit of its name meets that name at most once.
   */
  lemma NamesAgreeEditByEdit(base: seq<Name>, edits: seq<Edit>)
    requires Distinct(base)
    ensures NamesAgree(base, edits) <==>
            forall k :: LastEdit(edits, k) && edits[k].Remove? ==> MeetsOnce(base, edits, k)
  {
    forall x
      ensures (x in EditedIfAbsent(base, edits) <==> x in Edited(base, edits)) <==>
              forall k :: LastEdit(edits, k) && edits[k] == Remove(x) ==> MeetsOnce(base, edits, k)
    {
      NameAgreesIff(base, edits, x);
    }
    forall k | NamesAgree(base, edits) && LastEdit(edits, k) && edits[k].Remove?
      ensures MeetsOnce(base, edits, k)
    {
      assert edits[k] == Remove(edits[k].name);
    }
  }

  /** The last removal of every name meets it at most once. */
  ghost predicate NothingLeft(base: seq<Name>, edits: seq<Edit>) {
    forall k :: LastRemoval(edits, k) ==> MeetsOnce(base, edits, k)
  }

  lemma NothingLeftOf(base: seq<Name>, edits: seq<Edit>, x: Name)
    requires Distinct(base) && NothingLeft(base, edits)
    ensures LeftBehind(base, edits, x) == 0
  {
    var k := LastRemovalOf(edits, x);
    if k < 0 {
      NeverRemoved(base, edits, x);
    } else {
      LeftByLastRemoval(base, edits, x, k);
      CountAfterRemoval(base, edits, k);
    }
  }

  /** When nothing is left behind the results agree, whatever removals met before. */
  lemma ResultsAgree(base: seq<Name>, edits: seq<Edit>)
    requires Distinct(base) && NothingLeft(base, edits)
    ensures Agree(base, edits)
  {
    DistinctCounts(base);
    forall x | x in Edited(base, edits)
      ensures LeftBehind(base, edits, x) < Count(Edited(base, edits), x)
      ensures ShownAt(base, edits, x) == IndexOf(Edited(base, edits), x)
    {
      NothingLeftOf(base, edits, x);
      CountZero(Edited(base, edits), x);
      FirstPosition(Edited(base, edits), x);
    }
    assert RepeatsRemoved(base, edits);
    assert NoneOnlyLeft(base, edits);
    assert OrderAgrees(base, edits);
    ResultsAgreeIff(base, edits);
  }

  lemma StepByStep(edits: seq<Edit>, e: Edit, composed: seq<Name>, shown: seq<Name>)
    requires Edited([], edits) == composed && EditedIfAbsent([], edits) == shown
    ensures Edited([], edits + [e]) == if e.Remove? then RemoveFirst(composed, e.name) else composed + [e.name]
    ensures EditedIfAbsent([], edits + [e]) ==
            if e.Remove? then RemoveFirst(shown, e.name)
            else if e.name in shown then shown else shown + [e.name]
  {
    EditedSnoc([], edits, e);
  }

  lemma AddedBefore(n: Name, m: Name)
    requires n != m
    ensures Edited([], [Add(n), Add(n), Add(m)]) == [n, n, m] && EditedIfAbsent([], [Add(n), Add(n), Add(m)]) == [n, m]
  {
    AddedTwice(n);
    StepByStep([Add(n), Add(n)], Add(m), [n, n], [n]);
    assert [Add(n), Add(n)] + [Add(m)] == [Add(n), Add(n), Add(m)];
    assert [n, n] + [m] == [n, n, m] && [n] + [m] == [n, m];
  }

  lemma RemovedOnce(n: Name, m: Name)
    requires n != m
    ensures
      var edits := [Add(n), Add(n), Add(m), Remove(n)];
      Edited([], edits) == [n, m] && EditedIfAbsent([], edits) == [m]
  {
    AddedBefore(n, m);
    StepByStep([Add(n), Add(n), Add(m)], Remove(n), [n, n, m], [n, m]);
    assert [Add(n), Add(n), Add(m)] + [Remove(n)] == [Add(n), Add(n), Add(m), Remove(n)];
    IndexOfIsFirst([n, n, m], n, 0);
    IndexOfIsFirst([n, m], n, 0);
    assert [n] + [n, m] == [n, n, m] && [n] + [m] == [n, m];
  }

  lemma Reordered(n: Name, m: Name)
    requires n != m
    ensures
      var edits := [Add(n), Add(n), Add(m), Remove(n), Add(n)];
      Edited([], edits) == [n, m, n] && EditedIfAbsent([], edits) == [m, n]
  {
    RemovedOnce(n, m);
    StepByStep([Add(n), Add(n), Add(m), Remove(n)], Add(n), [n, m], [m]);
    assert [Add(n), Add(n), Add(m), Remove(n)] + [Add(n)] == [Add(n), Add(n), Add(m), Remove(n), Add(n)];
    assert [n, m] + [n] == [n, m, n] && [m] + [n] == [m, n];
  }

  /** The same names may come in another order: a name left behind keeps its early place for the composer. */
  lemma LeftoverMayReorder(n: Name, m: Name)
    requires n != m
    ensures
      var edits := [Add(n), Add(n), Add(m), Remove(n), Add(n)];
      NamesAgree([], edits) && !Agree([], edits)
  {
    Reordered(n, m);
    DedupHead([n, m, n]);
  }
}
