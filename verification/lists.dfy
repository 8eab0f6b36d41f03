/** Lists of names as the composition code uses them: membership, removal, first occurrences. */
module Lists {

  function Elems<T>(s: seq<T>): set<T> {
    set x | x in s
  }

  ghost predicate Distinct<T>(s: seq<T>) {
    forall i, j :: 0 <= i < j < |s| ==> s[i] != s[j]
  }

  /** The first occurrence of every element, in order. */
  function Dedup<T(==,!new)>(s: seq<T>): (d: seq<T>)
    ensures Elems(d) == Elems(s)
    ensures Distinct(d)
    ensures |d| <= |s|
  {
    if s == [] then []
    else
      var d := Dedup(s[..|s| - 1]);
      var x := s[|s| - 1];
      assert s == s[..|s| - 1] + [x];
      assert forall y :: y in s <==> y in s[..|s| - 1] || y == x;
      if x in d then
        assert x in Elems(d);
        d
      else
        assert forall y :: y in d <==> y in Elems(d);
        d + [x]
  }

  /** One more name: visited before, or a new last one. */
  lemma VisitNext<T(!new)>(names: seq<T>, i: nat)
    requires i < |names|
    ensures Dedup(names[..i + 1]) == if names[i] in Elems(Dedup(names[..i])) then Dedup(names[..i])
        else Dedup(names[..i]) + [names[i]]
    ensures Elems(Dedup(names[..i]) + [names[i]]) == Elems(Dedup(names[..i])) + {names[i]}
  {
    assert names[..i + 1] == names[..i] + [names[i]];
    DedupSnoc(names[..i], names[i]);
  }

  lemma DedupSnoc<T(!new)>(s: seq<T>, x: T)
    ensures Dedup(s + [x]) == if x in s then Dedup(s) else Dedup(s) + [x]
  {
    assert (s + [x])[..|s|] == s;
    assert x in Dedup(s) <==> x in Elems(Dedup(s));
  }

  lemma {:induction false} DedupHead<T(!new)>(s: seq<T>)
    requires s != []
    ensures Dedup(s) != [] && Dedup(s)[0] == s[0]
  {
    var front, last := s[..|s| - 1], s[|s| - 1];
    assert s == front + [last];
    DedupSnoc(front, last);
    if front != [] {
      DedupHead(front);
    }
  }

  function IndexOf<T(==)>(s: seq<T>, x: T): (i: nat)
    requires x in s
    ensures i < |s| && s[i] == x && x !in s[..i]
  {
    if s[0] == x then 0
    else
      assert s == [s[0]] + s[1..];
      var i := IndexOf(s[1..], x);
      assert s[..i + 1] == [s[0]] + s[1..][..i];
      i + 1
  }

  lemma {:induction false} IndexOfIsFirst<T>(s: seq<T>, x: T, i: nat)
    requires i < |s| && s[i] == x && x !in s[..i]
    ensures IndexOf(s, x) == i
  {
    if i > 0 {
      assert s[..i][0] == s[0];
      assert s[1..][..i - 1] == s[..i][1..];
      IndexOfIsFirst(s[1..], x, i - 1);
    }
  }

  lemma IndexOfPrefix<T>(s: seq<T>, t: seq<T>, x: T)
    requires x in s
    ensures IndexOf(s + t, x) == IndexOf(s, x)
  {
    var i := IndexOf(s, x);
    assert (s + t)[..i] == s[..i];
    IndexOfIsFirst(s + t, x, i);
  }

  /** What `Dedup` means: its elements stand in the order of their first occurrences. */
  lemma {:induction false} DedupKeepsFirstOrder<T(!new)>(s: seq<T>, i: nat, j: nat)
    requires i < j < |Dedup(s)|
    ensures Dedup(s)[i] in Elems(s) && Dedup(s)[j] in Elems(s)
    ensures IndexOf(s, Dedup(s)[i]) < IndexOf(s, Dedup(s)[j])
  {
    var d := Dedup(s);
    assert d[i] in Elems(d) && d[j] in Elems(d);
    var front, x := s[..|s| - 1], s[|s| - 1];
    assert s == front + [x];
    DedupSnoc(front, x);
    if j < |Dedup(front)| {
      DedupKeepsFirstOrder(front, i, j);
      IndexOfPrefix(front, [x], d[i]);
      IndexOfPrefix(front, [x], d[j]);
    } else {
      assert Dedup(front)[i] in Elems(Dedup(front));
      IndexOfPrefix(front, [x], d[i]);
      assert d[j] == x && x !in front;
      assert IndexOf(s, x) >= |front|;
    }
  }

  function Filter<T(!new)>(s: seq<T>, keep: T -> bool): (r: seq<T>)
    ensures forall x :: x in r <==> x in s && keep(x)
    ensures |r| <= |s|
  {
    if s == [] then []
    else
      assert s == s[..|s| - 1] + [s[|s| - 1]];
      Filter(s[..|s| - 1], keep) + (if keep(s[|s| - 1]) then [s[|s| - 1]] else [])
  }

  lemma FilterSnoc<T(!new)>(s: seq<T>, x: T, keep: T -> bool)
    ensures Filter(s + [x], keep) == Filter(s, keep) + (if keep(x) then [x] else [])
  {
    assert (s + [x])[..|s|] == s;
  }

  lemma {:induction false} FilterSame<T(!new)>(s: seq<T>, p: T -> bool, q: T -> bool)
    requires forall x :: p(x) == q(x)
    ensures Filter(s, p) == Filter(s, q)
  {
    if s != [] {
      FilterSame(s[..|s| - 1], p, q);
    }
  }

  lemma Assoc<T>(a: seq<T>, b: seq<T>, c: seq<T>)
    ensures (a + b) + c == a + (b + c)
  {
  }

  lemma FrontAndLast<T>(s: seq<T>)
    requires s != []
    ensures s[..|s| - 1] + [s[|s| - 1]] == s
  {
  }

  /** `list.remove(x)` when `x` occurs, and nothing otherwise. */
  function RemoveFirst<T(==)>(s: seq<T>, x: T): seq<T> {
    if x !in s then s else s[..IndexOf(s, x)] + s[IndexOf(s, x) + 1..]
  }

  function Count<T(==)>(s: seq<T>, x: T): nat {
    if s == [] then 0 else Count(s[..|s| - 1], x) + (if s[|s| - 1] == x then 1 else 0)
  }

  lemma {:induction false} CountAppend<T>(s: seq<T>, t: seq<T>, x: T)
    ensures Count(s + t, x) == Count(s, x) + Count(t, x)
  {
    if t == [] {
      assert s + t == s;
    } else {
      assert (s + t)[..|s + t| - 1] == s + t[..|t| - 1];
      CountAppend(s, t[..|t| - 1], x);
    }
  }

  lemma {:induction false} CountZero<T>(s: seq<T>, x: T)
    ensures Count(s, x) == 0 <==> x !in s
  {
    if s != [] {
      CountZero(s[..|s| - 1], x);
      assert s == s[..|s| - 1] + [s[|s| - 1]];
    }
  }

  /** Removal takes one occurrence of `x` and leaves every other element alone. */
  lemma RemoveFirstCount<T>(s: seq<T>, x: T, y: T)
    ensures Count(RemoveFirst(s, x), y) == if y == x && x in s then Count(s, x) - 1 else Count(s, y)
  {
    if x in s {
      var i := IndexOf(s, x);
      assert s == (s[..i] + [x]) + s[i + 1..];
      CountAppend(s[..i] + [x], s[i + 1..], y);
      CountAppend(s[..i], [x], y);
      CountAppend(s[..i], s[i + 1..], y);
      assert Count([x], y) == if x == y then 1 else 0 by {
        assert [x][..0] == [];
      }
    }
  }

  lemma RemoveFirstKeepsOthers<T>(s: seq<T>, x: T, y: T)
    requires y != x
    ensures y in RemoveFirst(s, x) <==> y in s
  {
    RemoveFirstCount(s, x, y);
    CountZero(s, y);
    CountZero(RemoveFirst(s, x), y);
  }

  lemma CountSnoc<T>(s: seq<T>, y: T, x: T)
    ensures Count(s + [y], x) == Count(s, x) + (if y == x then 1 else 0)
  {
    assert (s + [y])[..|s|] == s;
  }

  lemma {:induction false} CountOfPair<T>(s: seq<T>, i: nat, j: nat)
    requires i < j < |s| && s[i] == s[j]
    ensures Count(s, s[i]) >= 2
  {
    var front := s[..|s| - 1];
    if j < |front| {
      CountOfPair(front, i, j);
    } else {
      CountZero(front, s[i]);
      assert front[i] in front;
    }
  }

  /** No repetition means that nothing is counted twice. */
  lemma {:induction false} DistinctCounts<T(!new)>(s: seq<T>)
    ensures Distinct(s) <==> forall x :: Count(s, x) <= 1
  {
    if s != [] {
      var front, last := s[..|s| - 1], s[|s| - 1];
      DistinctCounts(front);
      if Distinct(s) {
        forall x
          ensures Count(s, x) <= 1
        {
          CountZero(front, x);
        }
      } else {
        var i, j :| 0 <= i < j < |s| && s[i] == s[j];
        CountOfPair(s, i, j);
      }
    }
  }

  /** Where `x` stands in `s`, in order. */
  function Positions<T(==)>(s: seq<T>, x: T): seq<nat> {
    if s == [] then []
    else Positions(s[..|s| - 1], x) + (if s[|s| - 1] == x then [|s| - 1] else [])
  }

  lemma PositionsSnoc<T>(s: seq<T>, y: T, x: T)
    ensures Positions(s + [y], x) == if y == x then Positions(s, x) + [|s|] else Positions(s, x)
  {
    assert (s + [y])[..|s|] == s;
    assert Positions(s, x) + [] == Positions(s, x);
  }

  ghost predicate Below(p: seq<nat>, bound: int) {
    forall j :: 0 <= j < |p| ==> p[j] < bound
  }

  lemma {:induction false} PositionsCount<T>(s: seq<T>, x: T)
    ensures |Positions(s, x)| == Count(s, x)
    ensures Below(Positions(s, x), |s|)
  {
    if s != [] {
      PositionsCount(s[..|s| - 1], x);
    }
  }

  lemma {:induction false} FirstPosition<T>(s: seq<T>, x: T)
    requires x in s
    ensures Positions(s, x) != [] && Positions(s, x)[0] == IndexOf(s, x)
  {
    var front, last := s[..|s| - 1], s[|s| - 1];
    assert s == front + [last];
    PositionsSnoc(front, last, x);
    if x in front {
      FirstPosition(front, x);
      IndexOfPrefix(front, [last], x);
    } else {
      CountZero(front, x);
      PositionsCount(front, x);
      IndexOfIsFirst(s, x, |front|);
    }
  }

  /** The positions after index `gone` is removed from the list. */
  function Shift(p: seq<nat>, gone: nat): (r: seq<nat>)
    requires gone !in p
    ensures |r| == |p|
  {
    seq(|p|, j requires 0 <= j < |p| => if p[j] > gone then p[j] - 1 else p[j])
  }

  lemma RemoveInFront<T>(s: seq<T>, y: T, i: nat)
    requires i < |s|
    ensures (s + [y])[..i] + (s + [y])[i + 1..] == s[..i] + s[i + 1..] + [y]
  {
    assert (s + [y])[..i] == s[..i];
    assert (s + [y])[i + 1..] == s[i + 1..] + [y];
    Assoc(s[..i], s[i + 1..], [y]);
  }

  lemma RemoveFirstSnoc<T>(s: seq<T>, y: T, x: T)
    ensures x in s ==> RemoveFirst(s + [y], x) == RemoveFirst(s, x) + [y] && IndexOf(s + [y], x) == IndexOf(s, x)
    ensures x !in s && y == x ==> RemoveFirst(s + [y], x) == s && IndexOf(s + [y], x) == |s|
  {
    if x in s {
      IndexOfPrefix(s, [y], x);
      RemoveInFront(s, y, IndexOf(s, x));
    } else if y == x {
      assert (s + [y])[..|s|] == s;
      IndexOfIsFirst(s + [y], x, |s|);
      assert (s + [y])[..|s|] + (s + [y])[|s| + 1..] == s;
    }
  }

  /** The positions that are left of `p` when the first `x` goes. */
  function Remaining(p: seq<nat>, own: bool): seq<nat> {
    if own && p != [] then p[1..] else p
  }

  /** `after` are the positions of a name, or of the removed name itself, after index `gone` is removed. */
  ghost predicate Moves(before: seq<nat>, after: seq<nat>, own: bool, gone: nat) {
    var left := Remaining(before, own);
    gone !in left && after == Shift(left, gone)
  }

  lemma MovesSnoc(before: seq<nat>, after: seq<nat>, own: bool, gone: nat, last: nat)
    requires Moves(before, after, own, gone) && gone < last && (own ==> before != [])
    ensures Moves(before + [last], after + [last - 1], own, gone)
  {
    var left := Remaining(before, own);
    assert Remaining(before + [last], own) == left + [last];
    assert Shift(left + [last], gone) == Shift(left, gone) + [last - 1];
  }

  lemma MovesNothing(before: seq<nat>, gone: nat)
    requires Below(before, gone)
    ensures Moves(before, before, false, gone)
  {
    assert Shift(before, gone) == before;
  }

  lemma RemovalIsLast<T>(front: seq<T>, x: T, y: T)
    requires x !in front
    ensures Moves(Positions(front + [x], y), Positions(front, y), y == x, |front|)
  {
    PositionsSnoc(front, x, y);
    PositionsCount(front, y);
    if y == x {
      CountZero(front, x);
      assert Remaining(Positions(front + [x], y), true) == [];
    } else {
      MovesNothing(Positions(front, y), |front|);
    }
  }

  lemma RemovalIsEarlier<T>(front: seq<T>, after: seq<T>, last: T, y: T, own: bool, gone: nat)
    requires |after| == |front| - 1 && gone < |front| && (own ==> Positions(front, y) != [])
    requires Moves(Positions(front, y), Positions(after, y), own, gone)
    ensures Moves(Positions(front + [last], y), Positions(after + [last], y), own, gone)
  {
    PositionsSnoc(front, last, y);
    PositionsSnoc(after, last, y);
    if last == y {
      MovesSnoc(Positions(front, y), Positions(after, y), own, gone, |front|);
    }
  }

  /** A removal moves every position behind it, and drops its own. */
  lemma {:induction false} PositionsAfterRemoval<T>(s: seq<T>, x: T, y: T)
    requires x in s
    ensures Moves(Positions(s, y), Positions(RemoveFirst(s, x), y), y == x, IndexOf(s, x))
    ensures y == x ==> Positions(s, y) != []
  {
    var front, last := s[..|s| - 1], s[|s| - 1];
    assert s == front + [last];
    FirstPosition(s, x);
    RemoveFirstSnoc(front, last, x);
    if x in front {
      PositionsAfterRemoval(front, x, y);
      RemovalIsEarlier(front, RemoveFirst(front, x), last, y, y == x, IndexOf(front, x));
    } else {
      RemovalIsLast(front, x, y);
    }
  }

  /** Two elements stand in `Dedup(s)` as their first occurrences stand in `s`. */
  lemma DedupOrder<T(!new)>(s: seq<T>, x: T, y: T)
    requires x in s && y in s
    ensures x in Dedup(s) && y in Dedup(s)
    ensures IndexOf(Dedup(s), x) < IndexOf(Dedup(s), y) <==> IndexOf(s, x) < IndexOf(s, y)
  {
    var d := Dedup(s);
    assert x in Elems(d) && y in Elems(d);
    var i, j := IndexOf(d, x), IndexOf(d, y);
    if i < j {
      DedupKeepsFirstOrder(s, i, j);
    } else if j < i {
      DedupKeepsFirstOrder(s, j, i);
    }
  }

  /** The elements of `a` stand in `b` in the order in which they stand in `a`. */
  ghost predicate SameOrder<T(!new)>(a: seq<T>, b: seq<T>) {
    && (forall x :: x in a <==> x in b)
    && forall x, y :: x in a && y in a && IndexOf(a, x) < IndexOf(a, y) ==> IndexOf(b, x) < IndexOf(b, y)
  }

  lemma DistinctIndex<T>(s: seq<T>, i: nat)
    requires Distinct(s) && i < |s|
    ensures IndexOf(s, s[i]) == i
  {
    var j := IndexOf(s, s[i]);
  }

  lemma {:induction false} NoEarlier<T(!new)>(a: seq<T>, b: seq<T>, i: nat)
    requires Distinct(a) && SameOrder(a, b) && i < |a|
    ensures a[i] in b && i <= IndexOf(b, a[i])
  {
    if i > 0 {
      NoEarlier(a, b, i - 1);
      DistinctIndex(a, i - 1);
      DistinctIndex(a, i);
    }
  }

  lemma SameOrderBack<T(!new)>(a: seq<T>, b: seq<T>)
    requires SameOrder(a, b)
    ensures SameOrder(b, a)
  {
    forall x, y | x in b && y in b && IndexOf(b, x) < IndexOf(b, y)
      ensures IndexOf(a, x) < IndexOf(a, y)
    {
      assert x in a && y in a && IndexOf(a, x) != IndexOf(a, y);
    }
  }

  lemma SameOrderAt<T(!new)>(a: seq<T>, b: seq<T>, i: nat)
    requires Distinct(a) && Distinct(b) && SameOrder(a, b) && SameOrder(b, a) && i < |a|
    ensures i < |b| && b[i] == a[i]
  {
    NoEarlier(a, b, i);
    var k := IndexOf(b, a[i]);
    NoEarlier(b, a, k);
    DistinctIndex(a, i);
  }

  /** Lists without repetition, with the same elements in the same order, are one list. */
  lemma SameOrderIsSame<T(!new)>(a: seq<T>, b: seq<T>)
    requires Distinct(a) && Distinct(b) && SameOrder(a, b)
    ensures a == b
  {
    SameOrderBack(a, b);
    forall i | 0 <= i < |a|
      ensures i < |b| && b[i] == a[i]
    {
      SameOrderAt(a, b, i);
    }
    if |b| > |a| {
      SameOrderAt(b, a, |a|);
    }
    if |a| > |b| {
      SameOrderAt(a, b, |b|);
    }
  }
}
