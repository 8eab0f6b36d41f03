/** The flat form's expressions: how they are wrapped into lines and read back into terms. */
module Expressions {
  import opened SignedFold
  import opened Lists
  import opened Text

  const WRAP := 78

  // ------------------------------------------------------------------- wrapping

  function Piece(terms: seq<Word>, i: nat): string
    requires i < |terms|
  {
    if i == 0 then terms[i] else "+ " + terms[i]
  }

  /** The pieces that are put on lines: every term but the first brings its plus sign. */
  function Pieces(terms: seq<Word>): seq<string> {
    seq(|terms|, i requires 0 <= i < |terms| => Piece(terms, i))
  }

  datatype Page = Page(lines: seq<string>, current: string)

  function Place(page: Page, piece: string): Page {
    if page.current != "" && |page.current| + 1 + |piece| > WRAP then Page(page.lines + [page.current], piece)
    else Page(page.lines, Strip(page.current + " " + piece))
  }

  function Placed(pieces: seq<string>): Page {
    if pieces == [] then Page([], "") else Place(Placed(pieces[..|pieces| - 1]), pieces[|pieces| - 1])
  }

  function Lines(terms: seq<Word>): seq<string> {
    Placed(Pieces(terms)).lines + [Placed(Pieces(terms)).current]
  }

  /** The lines, indented by two and joined by newlines. */
  function Indented(lines: seq<string>): string {
    if lines == [] then ""
    else if |lines| == 1 then "  " + lines[0]
    else Indented(lines[..|lines| - 1]) + "\n" + ("  " + lines[|lines| - 1])
  }

  /** One piece is put on the page. */
  method Put(lines: seq<string>, current: string, piece: string) returns (lines': seq<string>, current': string)
    ensures Page(lines', current') == Place(Page(lines, current), piece)
  {
    lines', current' := lines, current;
    if current != "" && |current| + 1 + |piece| > WRAP {
      lines' := lines + [current];
      current' := piece;
    } else {
      current' := Strip(current + " " + piece);
    }
  }

  method Fill(terms: seq<Word>) returns (lines: seq<string>)
    ensures lines == Lines(terms)
  {
    lines := [];
    var current := "";
    ghost var pieces := Pieces(terms);
    for i := 0 to |terms|
      invariant Page(lines, current) == Placed(pieces[..i])
    {
      assert pieces[..i + 1][..i] == pieces[..i];
      lines, current := Put(lines, current, if i == 0 then terms[i] else "+ " + terms[i]);
    }
    assert pieces[..|terms|] == pieces;
    lines := lines + [current];
  }

  method WrapExpr(terms: seq<Word>) returns (text: string)
    ensures text == Indented(Lines(terms))
  {
    var lines := Fill(terms);
    text := "";
    for i := 0 to |lines|
      invariant text == Indented(lines[..i])
    {
      assert lines[..i + 1][..i] == lines[..i];
      text := if i == 0 then "  " + lines[i] else text + "\n" + ("  " + lines[i]);
    }
    assert lines[..|lines|] == lines;
  }

  // -------------------------------------------------------------------- reading

  /** The terms read so far and the sign that waits for its word. */
  datatype Reading = Reading(found: seq<Term>, positive: bool)

  function Read(words: seq<string>): Reading {
    if words == [] then Reading([], true)
    else
      var before, w := Read(words[..|words| - 1]), words[|words| - 1];
      if w == "+" then Reading(before.found, true)
      else if w == "-" then Reading(before.found, false)
      else Reading(before.found + [Term(before.positive, w)], true)
  }

  method Terms(expr: string) returns (found: seq<Term>)
    ensures found == Read(Words(expr)).found
  {
    var words := Words(expr);
    found := [];
    var positive := true;
    for i := 0 to |words|
      invariant Reading(found, positive) == Read(words[..i])
    {
      assert words[..i + 1][..i] == words[..i];
      if words[i] == "+" {
        positive := true;
        continue;
      }
      if words[i] == "-" {
        positive := false;
        continue;
      }
      found := found + [Term(positive, words[i])];
      positive := true;
    }
    assert words[..|words|] == words;
  }

  // ------------------------------------------------------------------ round trip

  /** A term that can stand in an expression. */
  predicate Plain(t: Word) {
    t != "" && NoSpace(t) && t != "+" && t != "-"
  }

  ghost predicate AllPlain(terms: seq<Word>) {
    forall i :: 0 <= i < |terms| ==> Plain(terms[i])
  }

  function AllPositive(terms: seq<Word>): seq<Term> {
    seq(|terms|, i requires 0 <= i < |terms| => Term(true, terms[i]))
  }

  /** The words of the expression: the terms with plus signs between them. */
  function Spelled(terms: seq<Word>, n: nat): seq<string>
    requires n <= |terms|
  {
    if n == 0 then [] else Spelled(terms, n - 1) + (if n == 1 then [terms[0]] else ["+", terms[n - 1]])
  }

  lemma ReadSnoc(words: seq<string>, w: string)
    ensures
      var before := Read(words);
      Read(words + [w]) ==
        if w == "+" then Reading(before.found, true)
        else if w == "-" then Reading(before.found, false)
        else Reading(before.found + [Term(before.positive, w)], true)
  {
    assert (words + [w])[..|words|] == words;
  }

  lemma {:induction false} ReadSpelled(terms: seq<Word>, n: nat)
    requires AllPlain(terms) && n <= |terms|
    ensures Read(Spelled(terms, n)) == Reading(AllPositive(terms)[..n], true)
  {
    if n > 0 {
      ReadSpelled(terms, n - 1);
      var before := Spelled(terms, n - 1);
      if n > 1 {
        ReadSnoc(before, "+");
        ReadSnoc(before + ["+"], terms[n - 1]);
        assert before + ["+", terms[n - 1]] == before + ["+"] + [terms[n - 1]];
      } else {
        ReadSnoc(before, terms[0]);
      }
    }
  }

  /** A single line that needs no stripping at either end. */
  predicate Tight(s: string) {
    s != "" && !IsSpace(s[0]) && !IsSpace(s[|s| - 1]) && Without(s, '\n')
  }

  lemma PieceWords(terms: seq<Word>, i: nat)
    requires AllPlain(terms) && i < |terms|
    ensures Tight(Piece(terms, i))
    ensures Words(Piece(terms, i)) == if i == 0 then [terms[0]] else ["+", terms[i]]
  {
    assert Plain(terms[i]);
    WordsOfWord(terms[i]);
    if i > 0 {
      WordsOfWord("+");
      assert Piece(terms, i) == "+" + [' '] + terms[i];
      WordsAfterSpace("+", ' ', terms[i]);
      assert ["+"] + [terms[i]] == ["+", terms[i]];
    }
  }

  function AllWords(lines: seq<string>): seq<string> {
    if lines == [] then [] else AllWords(lines[..|lines| - 1]) + Words(lines[|lines| - 1])
  }

  lemma AllWordsSnoc(lines: seq<string>, line: string)
    ensures AllWords(lines + [line]) == AllWords(lines) + Words(line)
  {
    assert (lines + [line])[..|lines|] == lines;
  }

  /** A line is short enough, or holds a single piece. */
  predicate Fits(pieces: seq<string>, line: string) {
    |line| <= 78 || line in pieces
  }

  /** `line` was begun because its first piece found no room on `before`. */
  ghost predicate Follows(pieces: seq<string>, before: string, line: string) {
    exists p :: p in pieces && p <= line && |before| + 1 + |p| > 78
  }

  ghost predicate AllFit(pieces: seq<string>, lines: seq<string>) {
    && (forall i :: 0 <= i < |lines| ==> Fits(pieces, lines[i]))
    && (forall i :: 0 < i < |lines| ==> Follows(pieces, lines[i - 1], lines[i]))
  }

  ghost predicate PageFits(pieces: seq<string>, page: Page) {
    AllFit(pieces, page.lines + [page.current])
  }

  lemma AllFitSnoc(pieces: seq<string>, lines: seq<string>, before: string, line: string)
    requires AllFit(pieces, lines + [before]) && Fits(pieces, line) && Follows(pieces, before, line)
    ensures AllFit(pieces, lines + [before] + [line])
  {
    var was := lines + [before];
    var all := was + [line];
    forall i | 0 < i < |all|
      ensures Follows(pieces, all[i - 1], all[i])
    {
      if i < |was| {
        assert Follows(pieces, was[i - 1], was[i]);
      }
    }
  }

  lemma FollowsGrown(pieces: seq<string>, last: string, before: string, line: string)
    requires Follows(pieces, last, before) && before <= line
    ensures Follows(pieces, last, line)
  {
    var p :| p in pieces && p <= before && |last| + 1 + |p| > 78;
    assert p <= line;
  }

  /** A line may grow as long as it fits. */
  lemma AllFitGrows(pieces: seq<string>, lines: seq<string>, before: string, line: string)
    requires AllFit(pieces, lines + [before]) && Fits(pieces, line) && (lines == [] || before <= line)
    ensures AllFit(pieces, lines + [line])
  {
    var was := lines + [before];
    var all := lines + [line];
    forall i | 0 < i < |all|
      ensures Follows(pieces, all[i - 1], all[i])
    {
      assert Follows(pieces, was[i - 1], was[i]);
      if i == |lines| {
        FollowsGrown(pieces, lines[i - 1], before, line);
      }
    }
    forall i | 0 <= i < |all|
      ensures Fits(pieces, all[i])
    {
      assert i < |lines| ==> all[i] == was[i];
    }
  }

  ghost predicate AllTight(pieces: seq<string>) {
    forall i :: 0 <= i < |pieces| ==> Tight(pieces[i])
  }

  /** The current line is empty only before the first piece. */
  predicate Usable(page: Page) {
    (page.current == "" && page.lines == []) || Tight(page.current)
  }

  lemma JoinLine(current: string, piece: string)
    requires Tight(piece) && (current == "" || Tight(current))
    ensures
      var line := Strip(current + " " + piece);
      && Tight(line) && Words(line) == Words(current) + Words(piece)
      && (current == "" ==> line == piece)
      && (current != "" ==> line == current + " " + piece)
  {
    var line := current + [' '] + piece;
    assert line == current + " " + piece;
    if current == "" {
      StripNothing(piece);
      assert line == [' '] + piece;
      assert Words("") + Words(piece) == Words(piece);
    } else {
      StripNothing(line);
      WordsAfterSpace(current, ' ', piece);
    }
  }

  function PageWords(page: Page): seq<string> {
    AllWords(page.lines) + Words(page.current)
  }

  /** One more piece opens a line of its own or fits on the current one. */
  lemma PlaceKeepsWords(page: Page, piece: string)
    requires Tight(piece) && Usable(page)
    ensures Tight(Place(page, piece).current)
    ensures PageWords(Place(page, piece)) == PageWords(page) + Words(piece)
  {
    if page.current != "" && |page.current| + 1 + |piece| > WRAP {
      AllWordsSnoc(page.lines, page.current);
    } else {
      JoinLine(page.current, piece);
      Assoc(AllWords(page.lines), Words(page.current), Words(piece));
    }
  }

  lemma PlaceKeepsFit(all: seq<string>, page: Page, piece: string)
    requires Tight(piece) && Usable(page) && piece in all && PageFits(all, page)
    ensures PageFits(all, Place(page, piece))
  {
    if page.current != "" && |page.current| + 1 + |piece| > WRAP {
      AllFitSnoc(all, page.lines, page.current, piece);
    } else {
      JoinLine(page.current, piece);
      AllFitGrows(all, page.lines, page.current, Place(page, piece).current);
    }
  }

  lemma {:induction false} PlacedWords(pieces: seq<string>)
    requires AllTight(pieces)
    ensures Usable(Placed(pieces)) && PageWords(Placed(pieces)) == AllWords(pieces)
  {
    if pieces == [] {
      assert PageWords(Page([], "")) == [];
    } else {
      var front, last := pieces[..|pieces| - 1], pieces[|pieces| - 1];
      PlacedWords(front);
      PlaceKeepsWords(Placed(front), last);
    }
  }

  lemma {:induction false} PlacedFit(all: seq<string>, pieces: seq<string>)
    requires AllTight(pieces) && forall i :: 0 <= i < |pieces| ==> pieces[i] in all
    ensures PageFits(all, Placed(pieces))
  {
    if pieces != [] {
      var front, last := pieces[..|pieces| - 1], pieces[|pieces| - 1];
      PlacedFit(all, front);
      PlacedWords(front);
      PlaceKeepsFit(all, Placed(front), last);
    }
  }

  lemma PiecesAreTight(terms: seq<Word>)
    requires AllPlain(terms)
    ensures AllTight(Pieces(terms))
  {
    forall i | 0 <= i < |terms|
      ensures Tight(Pieces(terms)[i])
    {
      PieceWords(terms, i);
    }
  }

  lemma {:induction false} PiecesSpell(terms: seq<Word>, n: nat)
    requires AllPlain(terms) && n <= |terms|
    ensures AllWords(Pieces(terms)[..n]) == Spelled(terms, n)
  {
    if n > 0 {
      PiecesSpell(terms, n - 1);
      assert Pieces(terms)[..n] == Pieces(terms)[..n - 1] + [Piece(terms, n - 1)];
      AllWordsSnoc(Pieces(terms)[..n - 1], Piece(terms, n - 1));
      PieceWords(terms, n - 1);
    }
  }

  lemma {:induction false} IndentedWords(lines: seq<string>)
    ensures Words(Indented(lines)) == AllWords(lines)
  {
    if lines != [] {
      var line := lines[|lines| - 1];
      WordsAfterSpace("", ' ', line);
      WordsAfterSpace(" ", ' ', line);
      assert "" + [' '] + line == " " + line && " " + [' '] + line == "  " + line;
      WordsAfterSpace("", ' ', "");
      assert "" + [' '] + "" == " ";
      assert [] + Words(line) == Words(line);
      if |lines| == 1 {
        assert lines[..0] == [];
      } else {
        IndentedWords(lines[..|lines| - 1]);
        var before := Indented(lines[..|lines| - 1]);
        assert Indented(lines) == before + ['\n'] + ("  " + line);
        WordsAfterSpace(before, '\n', "  " + line);
      }
    }
  }

  lemma LinesSpell(terms: seq<Word>)
    requires AllPlain(terms)
    ensures AllWords(Lines(terms)) == Spelled(terms, |terms|)
  {
    var pieces := Pieces(terms);
    PiecesAreTight(terms);
    PlacedWords(pieces);
    AllWordsSnoc(Placed(pieces).lines, Placed(pieces).current);
    PiecesSpell(terms, |terms|);
    assert pieces[..|terms|] == pieces;
  }

  /** Round trip: reading a wrapped expression gives the same terms, all positive. */
  lemma WrappedReadsBack(terms: seq<Word>)
    requires AllPlain(terms)
    ensures Read(Words(Indented(Lines(terms)))).found == AllPositive(terms)
  {
    LinesSpell(terms);
    IndentedWords(Lines(terms));
    ReadSpelled(terms, |terms|);
    assert AllPositive(terms)[..|terms|] == AllPositive(terms);
  }

  function TextLines(text: string): seq<string> {
    Parted(text, '\n').ended + [Parted(text, '\n').open]
  }

  function Indents(lines: seq<string>): seq<string> {
    seq(|lines|, i requires 0 <= i < |lines| => "  " + lines[i])
  }

  ghost predicate SingleLines(lines: seq<string>) {
    forall i :: 0 <= i < |lines| ==> Without(lines[i], '\n')
  }

  lemma IndentsAreSingle(lines: seq<string>)
    requires SingleLines(lines)
    ensures SingleLines(Indents(lines))
  {
    forall i | 0 <= i < |lines|
      ensures Without(Indents(lines)[i], '\n')
    {
      assert Without(lines[i], '\n');
    }
  }

  lemma {:induction false} IndentedJoins(lines: seq<string>)
    requires lines != []
    ensures Indented(lines) == Joined(Indents(lines), ['\n'])
  {
    if |lines| > 1 {
      IndentedJoins(lines[..|lines| - 1]);
      assert Indents(lines)[..|lines| - 1] == Indents(lines[..|lines| - 1]);
    }
  }

  lemma PartsOfJoined(parts: seq<string>)
    requires parts != [] && SingleLines(parts)
    ensures TextLines(Joined(parts, ['\n'])) == parts
  {
    PartingUndoesJoining(parts, '\n');
    FrontAndLast(parts);
  }

  /** Every line of an indented text is one of the lines behind two blanks. */
  lemma IndentedLines(lines: seq<string>)
    requires lines != [] && SingleLines(lines)
    ensures TextLines(Indented(lines)) == Indents(lines)
  {
    IndentedJoins(lines);
    IndentsAreSingle(lines);
    PartsOfJoined(Indents(lines));
  }

  lemma {:induction false} PlacedAreSingle(pieces: seq<string>)
    requires AllTight(pieces)
    ensures SingleLines(Placed(pieces).lines) && Without(Placed(pieces).current, '\n')
  {
    if pieces != [] {
      var front, last := pieces[..|pieces| - 1], pieces[|pieces| - 1];
      PlacedAreSingle(front);
      PlacedWords(front);
      PlaceKeepsWords(Placed(front), last);
    }
  }

  /**
   The text's lines are two blanks and a line that has at most 78 characters or is one piece,
   and each but the first was begun because its first piece did not fit on the line before.
   */
  lemma LinesFit(terms: seq<Word>, i: nat)
    requires AllPlain(terms)
    ensures
      var lines, text := Lines(terms), TextLines(Indented(Lines(terms)));
      && |text| == |lines|
      && (i < |lines| ==> text[i] == "  " + lines[i] && (|lines[i]| <= 78 || lines[i] in Pieces(terms)))
      && (0 < i < |lines| ==>
            exists p :: p in Pieces(terms) && p <= lines[i] && |lines[i - 1]| + 1 + |p| > 78)
  {
    var pieces := Pieces(terms);
    PiecesAreTight(terms);
    PlacedFit(pieces, pieces);
    PlacedAreSingle(pieces);
    IndentedLines(Lines(terms));
    if i < |Lines(terms)| {
      assert Fits(pieces, Lines(terms)[i]);
      assert i > 0 ==> Follows(pieces, Lines(terms)[i - 1], Lines(terms)[i]);
    }
  }

  // -------------------------------------------------------------- reading any signs

  lemma {:induction false} ReadAfter(a: seq<string>, b: seq<string>)
    requires Read(a).positive
    ensures Read(a + b).found == Read(a).found + Read(b).found && Read(a + b).positive == Read(b).positive
  {
    if b == [] {
      assert a + b == a && Read(a).found + [] == Read(a).found;
    } else {
      var front, w := b[..|b| - 1], b[|b| - 1];
      ReadAfter(a, front);
      assert a + b == a + front + [w];
      ReadSnoc(a + front, w);
      if w != "+" && w != "-" {
        Assoc(Read(a).found, Read(front).found, [Term(Read(front).positive, w)]);
      }
    }
  }

  /** Wherever it stands, a word that is no sign is a term, and negative exactly right behind a minus. */
  lemma WordIsTerm(a: seq<string>, w: string, b: seq<string>)
    requires w != "+" && w != "-"
    ensures Read(a + [w] + b).found ==
            Read(a).found + [Term(a == [] || a[|a| - 1] != "-", w)] + Read(b).found
  {
    ReadSnoc(a, w);
    ReadAfter(a + [w], b);
  }

  lemma {:induction false} SignsAreNoTerms(words: seq<string>)
    ensures (forall i :: 0 <= i < |words| ==> words[i] == "+" || words[i] == "-") <==> Read(words).found == []
  {
    if words != [] {
      SignsAreNoTerms(words[..|words| - 1]);
    }
  }

  /** A term behind its sign. */
  function Signed(t: Term): string {
    (if t.positive then "+" else "-") + " " + t.word
  }

  function SignedText(terms: seq<Term>): string {
    if terms == [] then "" else SignedText(terms[..|terms| - 1]) + " " + Signed(terms[|terms| - 1])
  }

  lemma SignedWords(t: Term)
    requires Plain(t.word)
    ensures Words(Signed(t)) == [if t.positive then "+" else "-", t.word]
  {
    var sign := if t.positive then "+" else "-";
    WordsOfWord(sign);
    WordsOfWord(t.word);
    WordsAfterSpace(sign, ' ', t.word);
    assert Signed(t) == sign + [' '] + t.word;
  }

  lemma ReadOneMore(words: seq<string>, t: Term)
    requires Plain(t.word) && Read(words).positive
    ensures Read(words + [if t.positive then "+" else "-", t.word]) == Reading(Read(words).found + [t], true)
  {
    var sign := if t.positive then "+" else "-";
    ReadSnoc(words, sign);
    ReadSnoc(words + [sign], t.word);
    assert words + [sign, t.word] == words + [sign] + [t.word];
  }

  lemma SignedTextSnoc(terms: seq<Term>)
    requires terms != [] && Plain(terms[|terms| - 1].word)
    ensures
      var t := terms[|terms| - 1];
      Words(SignedText(terms)) ==
        Words(SignedText(terms[..|terms| - 1])) + [if t.positive then "+" else "-", t.word]
  {
    var before, t := SignedText(terms[..|terms| - 1]), terms[|terms| - 1];
    SignedWords(t);
    WordsAfterSpace(before, ' ', Signed(t));
    assert SignedText(terms) == before + [' '] + Signed(t);
  }

  /** Round trip: plain terms, each behind its sign, are read back with their signs. */
  lemma {:induction false} SignedReadsBack(terms: seq<Term>)
    requires forall i :: 0 <= i < |terms| ==> Plain(terms[i].word)
    ensures Read(Words(SignedText(terms))) == Reading(terms, true)
  {
    if terms != [] {
      var n := |terms| - 1;
      SignedReadsBack(terms[..n]);
      SignedTextSnoc(terms);
      ReadOneMore(Words(SignedText(terms[..n])), terms[n]);
      FrontAndLast(terms);
    }
  }
}
