/**
 Opening a composite expression: terms are followed into the composites they name,
 signs multiply, and a composite met inside itself is cut.
 */
module SignedFold {
  import opened Lists
  import opened Wrappers

  type Word = string

  datatype Term = Term(positive: bool, word: Word)

  type Graph = map<Word, seq<Term>>

  // ------------------------------------------------------------ resolving a term

  predicate EndsWith(s: string, suffix: string) {
    |suffix| <= |s| && s[|s| - |suffix|..] == suffix
  }

  datatype Resolution = Names(composite: Word) | Leaf | Ambiguous

  function Candidates(term: Word, names: set<Word>): set<Word> {
    set n | n in names && EndsWith(n, "::" + term)
  }

  /** An exact name wins, then a unique suffix; several suffixes are refused. */
  function ResolveComposite(term: Word, names: set<Word>): (r: Resolution)
    ensures r.Names? ==> r.composite in names
  {
    var candidates := Candidates(term, names);
    if term in names then Names(term)
    else if |candidates| > 1 then Ambiguous
    else if candidates == {} then Leaf
    else
      Singleton(candidates);
      var n :| n in candidates;
      Names(n)
  }

  lemma Singleton<T>(s: set<T>)
    requires s != {} && |s| <= 1
    ensures forall x, y :: x in s && y in s ==> x == y
  {
    var x :| x in s;
    assert s == {x} + (s - {x});
    assert |s| == |{x}| + |s - {x}|;
    assert s - {x} == {};
  }

  /** The short term while it names only `full`, the full name otherwise. */
  function Spell(term: Word, full: Word, names: set<Word>): Word {
    var matches := set n | n in names && (n == term || EndsWith(n, "::" + term));
    if matches == {full} then term else full
  }

  /** Whatever `spell` writes is read back as the name it stands for. */
  lemma SpellingResolves(term: Word, full: Word, names: set<Word>)
    requires full in names && (full == term || EndsWith(full, "::" + term))
    ensures ResolveComposite(Spell(term, full, names), names) == Names(full)
  {
    var matches := set n | n in names && (n == term || EndsWith(n, "::" + term));
    if matches == {full} {
      if term in names {
        assert term in matches;
      } else {
        assert Candidates(term, names) == matches;
      }
    }
  }

  /** `n` is `term` with a qualification before it. */
  ghost predicate Qualifies(n: Word, term: Word) {
    exists prefix :: n == prefix + ("::" + term)
  }

  lemma EndsWithIff(n: Word, term: Word)
    ensures EndsWith(n, "::" + term) <==> Qualifies(n, term)
  {
    var suffix := "::" + term;
    if EndsWith(n, suffix) {
      assert n == n[..|n| - |suffix|] + suffix;
    }
  }

  /** Two different names qualify the term. */
  ghost predicate TwoQualify(term: Word, names: set<Word>) {
    exists a, b :: a in names && b in names && a != b && Qualifies(a, term) && Qualifies(b, term)
  }

  lemma TwoAreMore<T>(s: set<T>)
    ensures |s| > 1 <==> exists a, b :: a in s && b in s && a != b
  {
    if |s| > 1 {
      var a :| a in s;
      assert s == {a} + (s - {a});
      assert |s| == 1 + |s - {a}|;
      var b :| b in s - {a};
    } else if s != {} {
      Singleton(s);
    }
  }

  /**
   How a term is read: as itself when it is a name; else as the one name it is a suffix of; as a
   leaf when there is none; and it is ambiguous when there are two.
   */
  lemma ResolvesExactly(term: Word, names: set<Word>)
    ensures term in names ==> ResolveComposite(term, names) == Names(term)
    ensures term !in names ==>
              && (ResolveComposite(term, names).Ambiguous? <==> TwoQualify(term, names))
              && (ResolveComposite(term, names).Leaf? <==> forall n :: n in names ==> !Qualifies(n, term))
              && (forall n :: ResolveComposite(term, names) == Names(n) ==> n in names && Qualifies(n, term))
  {
    var candidates := Candidates(term, names);
    forall n
      ensures n in candidates <==> n in names && Qualifies(n, term)
    {
      EndsWithIff(n, term);
    }
    TwoAreMore(candidates);
  }

  /** The short term is written exactly while no other name equals or qualifies it. */
  lemma SpellsShortly(term: Word, full: Word, names: set<Word>)
    requires full in names && (full == term || Qualifies(full, term))
    ensures
      if forall n :: n in names && (n == term || Qualifies(n, term)) ==> n == full
      then Spell(term, full, names) == term else Spell(term, full, names) == full
  {
    forall n
      ensures EndsWith(n, "::" + term) <==> Qualifies(n, term)
    {
      EndsWithIff(n, term);
    }
    var matches := set n | n in names && (n == term || EndsWith(n, "::" + term));
    assert full in matches;
    if forall n :: n in names && (n == term || Qualifies(n, term)) ==> n == full {
      assert matches == {full};
    } else {
      var n :| n in names && (n == term || Qualifies(n, term)) && n != full;
      assert n in matches;
    }
  }

  // ------------------------------------------------------------------ unfolding

  datatype Item = Base(positive: bool, word: Word) | Refused

  function Room(g: Graph, stack: seq<Word>): nat {
    |g.Keys - Elems(stack)|
  }

  lemma RoomShrinks(g: Graph, stack: seq<Word>, w: Word)
    requires w in g && w !in stack
    ensures Room(g, stack + [w]) < Room(g, stack)
  {
    var more, less := g.Keys - Elems(stack), g.Keys - Elems(stack + [w]);
    assert w in more && w !in less;
    assert less <= more - {w};
    assert more == {w} + (more - {w});
    assert more - {w} == less + ((more - {w}) - less);
    assert |more - {w}| == |less| + |(more - {w}) - less|;
  }

  /** The base terms met when opening `current`, in order, with their multiplied signs. */
  function Unfold(g: Graph, current: Word, sign: bool, stack: seq<Word>): seq<Item>
    requires current in g
    decreases Room(g, stack), 1, 0
  {
    if current in stack then []
    else
      RoomShrinks(g, stack, current);
      UnfoldTerms(g, g[current], sign, stack + [current])
  }

  function UnfoldTerms(g: Graph, terms: seq<Term>, sign: bool, stack: seq<Word>): seq<Item>
    decreases Room(g, stack), 2, |terms|
  {
    if terms == [] then []
    else
      var front, last := terms[..|terms| - 1], terms[|terms| - 1];
      var here := sign == last.positive;
      UnfoldTerms(g, front, sign, stack) +
      match ResolveComposite(last.word, g.Keys)
      case Names(c) => Unfold(g, c, here, stack)
      case Leaf => [Base(here, last.word)]
      case Ambiguous => [Refused]
  }

  /** The same items with every sign turned. */
  function Negated(items: seq<Item>): seq<Item> {
    seq(|items|, i requires 0 <= i < |items| =>
      match items[i] case Base(positive, w) => Base(!positive, w) case Refused => Refused)
  }

  lemma NegatedAppend(a: seq<Item>, b: seq<Item>)
    ensures Negated(a + b) == Negated(a) + Negated(b)
  {
  }

  /** Signs multiply: opening under the other sign turns every sign. */
  lemma {:induction false} UnfoldFlips(g: Graph, current: Word, sign: bool, stack: seq<Word>)
    requires current in g
    ensures Unfold(g, current, !sign, stack) == Negated(Unfold(g, current, sign, stack))
    decreases Room(g, stack), 1, 0
  {
    if current !in stack {
      RoomShrinks(g, stack, current);
      TermsFlip(g, g[current], sign, stack + [current]);
    }
  }

  lemma {:induction false} TermsFlip(g: Graph, terms: seq<Term>, sign: bool, stack: seq<Word>)
    ensures UnfoldTerms(g, terms, !sign, stack) == Negated(UnfoldTerms(g, terms, sign, stack))
    decreases Room(g, stack), 2, |terms|
  {
    if terms != [] {
      var front, last := terms[..|terms| - 1], terms[|terms| - 1];
      var here := sign == last.positive;
      TermsFlip(g, front, sign, stack);
      var r := ResolveComposite(last.word, g.Keys);
      if r.Names? {
        UnfoldFlips(g, r.composite, here, stack);
        NegatedAppend(UnfoldTerms(g, front, sign, stack), Unfold(g, r.composite, here, stack));
      } else {
        NegatedAppend(UnfoldTerms(g, front, sign, stack), if r.Leaf? then [Base(here, last.word)] else [Refused]);
      }
    }
  }

  /** Terms are opened one after the other; a leaf stands for itself under its own sign. */
  lemma {:induction false} TermsUnfoldInOrder(g: Graph, a: seq<Term>, b: seq<Term>, sign: bool, stack: seq<Word>)
    ensures UnfoldTerms(g, a + b, sign, stack) == UnfoldTerms(g, a, sign, stack) + UnfoldTerms(g, b, sign, stack)
    decreases |b|
  {
    if b == [] {
      assert a + b == a;
    } else {
      var front, last := b[..|b| - 1], b[|b| - 1];
      assert (a + b)[..|a + b| - 1] == a + front;
      TermsUnfoldInOrder(g, a, front, sign, stack);
    }
  }

  lemma LeafUnfolds(g: Graph, term: Term, stack: seq<Word>)
    requires term.word !in g && forall n :: n in g ==> !Qualifies(n, term.word)
    ensures UnfoldTerms(g, [term], true, stack) == [Base(term.positive, term.word)]
  {
    ResolvesExactly(term.word, g.Keys);
    assert [term][..0] == [];
    assert UnfoldTerms(g, [term][..0], true, stack) == [];
  }

  /** Add if absent, remove if present. */
  function Fold(present: seq<Word>, items: seq<Item>): seq<Word> {
    if items == [] then present
    else
      var before, last := Fold(present, items[..|items| - 1]), items[|items| - 1];
      if last.Refused? then before
      else if last.positive then (if last.word in before then before else before + [last.word])
      else RemoveFirst(before, last.word)
  }

  lemma FoldSnoc(present: seq<Word>, items: seq<Item>, last: Item)
    ensures
      var before := Fold(present, items);
      Fold(present, items + [last]) ==
        if last.Refused? then before
        else if last.positive then (if last.word in before then before else before + [last.word])
        else RemoveFirst(before, last.word)
  {
    assert (items + [last])[..|items|] == items;
  }

  lemma {:induction false} FoldAppend(present: seq<Word>, a: seq<Item>, b: seq<Item>)
    ensures Fold(present, a + b) == Fold(Fold(present, a), b)
  {
    if b == [] {
      assert a + b == a;
    } else {
      assert (a + b)[..|a + b| - 1] == a + b[..|b| - 1];
      FoldAppend(present, a, b[..|b| - 1]);
    }
  }

  // --------------------------------------------------------------- last sign wins

  /** The latest occurrence of a base term. */
  function LastSign(items: seq<Item>, w: Word): Option<bool> {
    if items == [] then None
    else
      var last := items[|items| - 1];
      if last.Base? && last.word == w then Some(last.positive) else LastSign(items[..|items| - 1], w)
  }

  predicate Mentions(item: Item, w: Word) {
    item.Base? && item.word == w
  }

  lemma {:induction false} LastSignIsLast(items: seq<Item>, w: Word, i: nat)
    requires i < |items| && Mentions(items[i], w) && forall j :: i < j < |items| ==> !Mentions(items[j], w)
    ensures LastSign(items, w) == Some(items[i].positive)
  {
    if i < |items| - 1 {
      assert !Mentions(items[|items| - 1], w);
      LastSignIsLast(items[..|items| - 1], w, i);
    }
  }

  lemma DistinctRemove(s: seq<Word>, x: Word, y: Word)
    requires Distinct(s)
    ensures Distinct(RemoveFirst(s, x))
    ensures y in RemoveFirst(s, x) <==> y in s && y != x
  {
    if y != x {
      RemoveFirstKeepsOthers(s, x, y);
    }
  }

  /** The list kept by add-if-absent and remove-if-present is last-sign-wins. */
  lemma {:induction false} LastSignWins(items: seq<Item>, w: Word)
    ensures Distinct(Fold([], items))
    ensures w in Fold([], items) <==> LastSign(items, w) == Some(true)
  {
    if items != [] {
      var front, last := items[..|items| - 1], items[|items| - 1];
      LastSignWins(front, w);
      if last.Base? && !last.positive {
        DistinctRemove(Fold([], front), last.word, w);
      }
    }
  }

  // ----------------------------------------------------------------- the visitor

  lemma TermsSnoc(g: Graph, terms: seq<Term>, i: nat, sign: bool, stack: seq<Word>)
    requires i < |terms|
    ensures UnfoldTerms(g, terms[..i + 1], sign, stack) ==
            UnfoldTerms(g, terms[..i], sign, stack) +
            match ResolveComposite(terms[i].word, g.Keys)
            case Names(c) => Unfold(g, c, sign == terms[i].positive, stack)
            case Leaf => [Base(sign == terms[i].positive, terms[i].word)]
            case Ambiguous => [Refused]
  {
    assert terms[..i + 1][..i] == terms[..i];
  }

  lemma {:induction false} RefusedStays(g: Graph, terms: seq<Term>, i: nat, sign: bool, stack: seq<Word>)
    requires i <= |terms| && Refused in UnfoldTerms(g, terms[..i], sign, stack)
    ensures Refused in UnfoldTerms(g, terms, sign, stack)
    decreases |terms| - i
  {
    if i < |terms| {
      TermsSnoc(g, terms, i, sign, stack);
      RefusedStays(g, terms, i + 1, sign, stack);
    } else {
      assert terms[..i] == terms;
    }
  }

  /** A base term is added when absent, or removed when present. */
  method Toggle(present: seq<Word>, positive: bool, w: Word) returns (present': seq<Word>)
    ensures present' == if positive then (if w in present then present else present + [w]) else RemoveFirst(present, w)
  {
    present' := present;
    if positive {
      if w !in present {
        present' := present + [w];
      }
    } else if w in present {
      present' := RemoveFirst(present, w);
    }
  }

  /** The nested visitor: `present` is shared by all levels. */
  method Visit(g: Graph, current: Word, sign: bool, stack: seq<Word>, present: seq<Word>)
      returns (present': seq<Word>, refused: bool)
    requires current in g
    ensures refused <==> Refused in Unfold(g, current, sign, stack)
    ensures !refused ==> present' == Fold(present, Unfold(g, current, sign, stack))
    decreases Room(g, stack)
  {
    present', refused := present, false;
    if current in stack {
      return;
    }
    RoomShrinks(g, stack, current);
    var terms := g[current];
    ghost var inner := stack + [current];
    for i := 0 to |terms|
      invariant Refused !in UnfoldTerms(g, terms[..i], sign, inner)
      invariant present' == Fold(present, UnfoldTerms(g, terms[..i], sign, inner))
    {
      TermsSnoc(g, terms, i, sign, inner);
      ghost var done := UnfoldTerms(g, terms[..i], sign, inner);
      var here := sign == terms[i].positive;
      match ResolveComposite(terms[i].word, g.Keys)
      case Ambiguous =>
        RefusedStays(g, terms, i + 1, sign, inner);
        refused := true;
        return;
      case Names(c) =>
        FoldAppend(present, done, Unfold(g, c, here, inner));
        present', refused := Visit(g, c, here, stack + [current], present');
        if refused {
          RefusedStays(g, terms, i + 1, sign, inner);
          return;
        }
      case Leaf =>
        FoldSnoc(present, done, Base(here, terms[i].word));
        present' := Toggle(present', here, terms[i].word);
    }
    assert terms[..|terms|] == terms;
  }

  datatype Members = Members(words: set<Word>) | Refusal

  ghost predicate Brings(g: Graph, name: Word, w: Word)
    requires name in g
  {
    LastSign(Unfold(g, name, true, []), w) == Some(true)
  }

  /**
   On any graph, cyclic ones included, the members brought are the base terms whose
   last occurrence in the unfolding is positive; it refuses exactly when the
   unfolding meets an ambiguous term.
   */
  method Brought(g: Graph, name: Word) returns (r: Members)
    requires name in g
    ensures r.Refusal? <==> Refused in Unfold(g, name, true, [])
    ensures r.Members? ==> forall w :: w in r.words <==> Brings(g, name, w)
  {
    var present, refused := Visit(g, name, true, [], []);
    if refused {
      return Refusal;
    }
    r := Members(Elems(present));
    forall w
      ensures w in Elems(present) <==> Brings(g, name, w)
    {
      LastSignWins(Unfold(g, name, true, []), w);
    }
  }

  // ------------------------------------------------- members carried away with a removal

  /** Term `i` of `terms` names composite `c` with the given sign. */
  ghost predicate Opens(g: Graph, terms: seq<Term>, i: int, positive: bool, c: Word) {
    0 <= i < |terms| && terms[i].positive == positive && ResolveComposite(terms[i].word, g.Keys) == Names(c)
  }

  /** `terms` removes a composite that brings `w`, while it adds another that brings `w` as well. */
  ghost predicate CarriesIn(g: Graph, terms: seq<Term>, w: Word) {
    exists i, j, minus, plus ::
      Opens(g, terms, i, false, minus) && Opens(g, terms, j, true, plus)
      && plus != minus && Brings(g, minus, w) && Brings(g, plus, w)
  }

  ghost predicate AmbiguousIn(g: Graph, terms: seq<Term>) {
    exists i :: 0 <= i < |terms| && ResolveComposite(terms[i].word, g.Keys).Ambiguous?
  }

  ghost predicate SomeAmbiguous(g: Graph) {
    exists c :: c in g && AmbiguousIn(g, g[c])
  }

  lemma {:induction false} ClearUnfolds(g: Graph, current: Word, sign: bool, stack: seq<Word>)
    requires !SomeAmbiguous(g) && current in g
    ensures Refused !in Unfold(g, current, sign, stack)
    decreases Room(g, stack), 1, 0
  {
    if current !in stack {
      RoomShrinks(g, stack, current);
      assert !AmbiguousIn(g, g[current]);
      ClearTerms(g, g[current], sign, stack + [current]);
    }
  }

  lemma {:induction false} ClearTerms(g: Graph, terms: seq<Term>, sign: bool, stack: seq<Word>)
    requires !SomeAmbiguous(g) && !AmbiguousIn(g, terms)
    ensures Refused !in UnfoldTerms(g, terms, sign, stack)
    decreases Room(g, stack), 2, |terms|
  {
    if terms != [] {
      var front, last := terms[..|terms| - 1], terms[|terms| - 1];
      assert forall i :: 0 <= i < |front| ==> front[i] == terms[i];
      ClearTerms(g, front, sign, stack);
      var r := ResolveComposite(last.word, g.Keys);
      assert !r.Ambiguous?;
      if r.Names? {
        ClearUnfolds(g, r.composite, sign == last.positive, stack);
      }
    }
  }

  /** The composites that the positive terms name. */
  method Added(g: Graph, terms: seq<Term>) returns (added: seq<Word>, refused: bool)
    ensures refused ==> AmbiguousIn(g, terms)
    ensures !refused ==> forall i :: 0 <= i < |terms| && terms[i].positive ==>
        !ResolveComposite(terms[i].word, g.Keys).Ambiguous?
    ensures !refused ==> forall c :: c in added <==> exists i :: Opens(g, terms, i, true, c)
    ensures forall c :: c in added ==> c in g
  {
    added, refused := [], false;
    for i := 0 to |terms|
      invariant forall k :: 0 <= k < i && terms[k].positive ==> !ResolveComposite(terms[k].word, g.Keys).Ambiguous?
      invariant forall c :: c in added <==> exists k :: k < i && Opens(g, terms, k, true, c)
      invariant forall c :: c in added ==> c in g
    {
      if terms[i].positive {
        var r := ResolveComposite(terms[i].word, g.Keys);
        if r.Ambiguous? {
          refused := true;
          return;
        }
        if r.Names? {
          assert Opens(g, terms, i, true, r.composite);
          added := added + [r.composite];
        }
      }
    }
  }

  /** What the composites `added`, other than `minus`, bring. */
  method Others(g: Graph, added: seq<Word>, minus: Word) returns (others: set<Word>, refused: bool)
    requires forall c :: c in added ==> c in g
    ensures refused ==> SomeAmbiguous(g)
    ensures !refused ==> forall w :: w in others <==> exists c :: c in added && c in g && c != minus && Brings(g, c, w)
  {
    others, refused := {}, false;
    for i := 0 to |added|
      invariant forall w :: w in others <==>
                  exists k :: 0 <= k < i && added[k] in g && added[k] != minus && Brings(g, added[k], w)
    {
      if added[i] != minus {
        var r := Brought(g, added[i]);
        if r.Refusal? {
          if !SomeAmbiguous(g) {
            ClearUnfolds(g, added[i], true, []);
          }
          refused := true;
          return;
        }
        others := others + r.words;
      }
    }
  }

  ghost predicate AddedElsewhere(g: Graph, added: seq<Word>, minus: Word, w: Word) {
    exists plus :: plus in added && plus in g && plus != minus && Brings(g, plus, w)
  }

  /** The removal of `minus` takes `w` along. */
  ghost predicate CarriedBy(g: Graph, added: seq<Word>, minus: Word, w: Word) {
    minus in g && Brings(g, minus, w) && AddedElsewhere(g, added, minus, w)
  }

  ghost predicate CarriedAt(g: Graph, terms: seq<Term>, added: seq<Word>, i: int, w: Word) {
    exists minus :: Opens(g, terms, i, false, minus) && CarriedBy(g, added, minus, w)
  }

  method Removal(g: Graph, minus: Word, added: seq<Word>) returns (carried: set<Word>, refused: bool)
    requires minus in g && forall c :: c in added ==> c in g
    ensures refused ==> SomeAmbiguous(g)
    ensures !refused ==> forall w :: w in carried <==> CarriedBy(g, added, minus, w)
  {
    carried := {};
    var mine := Brought(g, minus);
    if mine.Refusal? {
      if !SomeAmbiguous(g) {
        ClearUnfolds(g, minus, true, []);
      }
      refused := true;
      return;
    }
    var others;
    others, refused := Others(g, added, minus);
    if !refused {
      carried := mine.words * others;
    }
  }

  method TermCarries(g: Graph, terms: seq<Term>, i: nat, added: seq<Word>) returns (carried: set<Word>, refused: bool)
    requires i < |terms| && forall c :: c in added ==> c in g
    requires forall k :: 0 <= k < |terms| && terms[k].positive ==> !ResolveComposite(terms[k].word, g.Keys).Ambiguous?
    requires AmbiguousIn(g, terms) ==> SomeAmbiguous(g)
    ensures refused ==> SomeAmbiguous(g)
    ensures !refused ==> !ResolveComposite(terms[i].word, g.Keys).Ambiguous?
    ensures !refused ==> forall w :: w in carried <==> CarriedAt(g, terms, added, i, w)
  {
    carried, refused := {}, false;
    if !terms[i].positive {
      var r := ResolveComposite(terms[i].word, g.Keys);
      if r.Ambiguous? {
        refused := true;
      } else if r.Names? {
        carried, refused := Removal(g, r.composite, added);
        assert Opens(g, terms, i, false, r.composite);
      }
    }
  }

  /** One composite: the members its removals take along, whatever else adds them. */
  method CarriedIn(g: Graph, terms: seq<Term>) returns (found: set<Word>, refused: bool)
    requires AmbiguousIn(g, terms) ==> SomeAmbiguous(g)
    ensures refused ==> SomeAmbiguous(g)
    ensures !refused ==> !AmbiguousIn(g, terms) && forall w :: w in found <==> CarriesIn(g, terms, w)
  {
    found := {};
    var added: seq<Word>;
    added, refused := Added(g, terms);
    if refused {
      return;
    }
    for i := 0 to |terms|
      invariant forall k :: 0 <= k < i ==> !ResolveComposite(terms[k].word, g.Keys).Ambiguous?
      invariant forall w :: w in found <==> exists k :: 0 <= k < i && CarriedAt(g, terms, added, k, w)
    {
      var carried;
      carried, refused := TermCarries(g, terms, i, added);
      if refused {
        return;
      }
      found := found + carried;
    }
    forall w
      ensures w in found <==> CarriesIn(g, terms, w)
    {
      CarriedInAll(g, terms, added, w);
    }
  }

  lemma CarriedInAll(g: Graph, terms: seq<Term>, added: seq<Word>, w: Word)
    requires forall c :: c in added <==> exists i :: Opens(g, terms, i, true, c)
    ensures (exists k :: 0 <= k < |terms| && CarriedAt(g, terms, added, k, w)) <==> CarriesIn(g, terms, w)
  {
    forall i, minus | Opens(g, terms, i, false, minus) && CarriedBy(g, added, minus, w)
      ensures CarriesIn(g, terms, w)
    {
      var plus :| plus in added && plus in g && plus != minus && Brings(g, plus, w);
      var j :| Opens(g, terms, j, true, plus);
      assert Opens(g, terms, i, false, minus) && Opens(g, terms, j, true, plus);
    }
    if CarriesIn(g, terms, w) {
      var i, j, minus, plus :|
        Opens(g, terms, i, false, minus) && Opens(g, terms, j, true, plus)
        && plus != minus && Brings(g, minus, w) && Brings(g, plus, w);
      assert plus in added;
      assert CarriedBy(g, added, minus, w);
      assert CarriedAt(g, terms, added, i, w);
    }
  }

  /** Some composite holds a term that is no name and that two different names qualify. */
  ghost predicate HoldsAmbiguousTerm(g: Graph) {
    exists c, i :: c in g && 0 <= i < |g[c]| && g[c][i].word !in g && TwoQualify(g[c][i].word, g.Keys)
  }

  lemma AmbiguityInPlainTerms(g: Graph)
    ensures SomeAmbiguous(g) <==> HoldsAmbiguousTerm(g)
  {
    forall w
      ensures ResolveComposite(w, g.Keys).Ambiguous? <==> w !in g && TwoQualify(w, g.Keys)
    {
      ResolvesExactly(w, g.Keys);
    }
    if SomeAmbiguous(g) {
      var c :| c in g && AmbiguousIn(g, g[c]);
      var i :| 0 <= i < |g[c]| && ResolveComposite(g[c][i].word, g.Keys).Ambiguous?;
      assert g[c][i].word !in g && TwoQualify(g[c][i].word, g.Keys);
    }
    if HoldsAmbiguousTerm(g) {
      var c, i :| c in g && 0 <= i < |g[c]| && g[c][i].word !in g && TwoQualify(g[c][i].word, g.Keys);
      assert AmbiguousIn(g, g[c]);
    }
  }

  /**
   The members that removals carry away, over all composites; it refuses exactly when some
   composite holds a term that is no name and that two different names qualify.
   */
  method CarriedAway(g: Graph) returns (found: Members)
    ensures found.Refusal? <==> HoldsAmbiguousTerm(g)
    ensures found.Members? ==> forall w :: w in found.words <==> exists c :: c in g && CarriesIn(g, g[c], w)
  {
    var words: set<Word> := {};
    var todo := g.Keys;
    AmbiguityInPlainTerms(g);
    while todo != {}
      invariant todo <= g.Keys
      invariant forall c :: c in g && c !in todo ==> !AmbiguousIn(g, g[c])
      invariant forall w :: w in words <==> exists c :: c in g && c !in todo && CarriesIn(g, g[c], w)
      decreases |todo|
    {
      var c :| c in todo;
      var more, refused := CarriedIn(g, g[c]);
      if refused {
        return Refusal;
      }
      words := words + more;
      todo := todo - {c};
    }
    found := Members(words);
  }
}
