/** Telling an edited file from one whose whitespace was only tidied. */
module Normalize {
  import opened Text
  import opened Wrappers

  // --------------------------------------------------------------------- lines

  /** The characters at which `str.splitlines` ends a line. */
  predicate IsBreak(c: char) {
    var n := c as int;
    0x0A <= n <= 0x0D || 0x1C <= n <= 0x1E || n == 0x85 || n == 0x2028 || n == 0x2029
  }

  predicate NoBreak(s: string) {
    forall i :: 0 <= i < |s| ==> !IsBreak(s[i])
  }

  /** Lines ended so far, the open line, and whether a carriage return has just ended one. */
  datatype Splitting = Splitting(lines: seq<string>, open: string, afterReturn: bool)

  function Split(s: string): Splitting {
    if s == "" then Splitting([], "", false)
    else
      var before, c := Split(s[..|s| - 1]), s[|s| - 1];
      if c == '\n' && before.afterReturn then before.(afterReturn := false)
      else if IsBreak(c) then Splitting(before.lines + [before.open], "", c == '\r')
      else Splitting(before.lines, before.open + [c], false)
  }

  function SplitLines(s: string): seq<string> {
    var all := Split(s);
    if all.open == "" then all.lines else all.lines + [all.open]
  }

  function Join(lines: seq<string>): string {
    if lines == [] then ""
    else if |lines| == 1 then lines[0]
    else Join(lines[..|lines| - 1]) + ['\n'] + lines[|lines| - 1]
  }

  // ------------------------------------------------------------- normalisation

  function Stripped(lines: seq<string>): seq<string> {
    seq(|lines|, i requires 0 <= i < |lines| => RStrip(lines[i]))
  }

  /** Runs of blank lines become one. */
  function Collapse(lines: seq<string>): seq<string> {
    if lines == [] then []
    else
      var before, n := Collapse(lines[..|lines| - 1]), |lines|;
      if lines[n - 1] == "" && n > 1 && lines[n - 2] == "" then before else before + [lines[n - 1]]
  }

  function Normalized(text: string): string {
    Strip(Join(Collapse(Stripped(SplitLines(text)))))
  }

  method Normalize(text: string) returns (r: string)
    ensures r == Normalized(text)
  {
    var lines := Stripped(SplitLines(text));
    var collapsed: seq<string> := [];
    var previousBlank := false;
    for i := 0 to |lines|
      invariant collapsed == Collapse(lines[..i])
      invariant previousBlank <==> i > 0 && lines[i - 1] == ""
    {
      assert lines[..i + 1][..i] == lines[..i];
      if lines[i] == "" {
        if previousBlank {
          continue;
        }
        previousBlank := true;
      } else {
        previousBlank := false;
      }
      collapsed := collapsed + [lines[i]];
    }
    assert lines[..|lines|] == lines;
    r := Strip(Join(collapsed));
  }

  /** `actual` is absent when the bytes are not text, `baseline` when none is known. */
  method IsUserEdit(actual: Option<string>, baseline: Option<string>) returns (edited: bool)
    ensures edited <==> baseline.None? || actual.None? || Normalized(actual.value) != Normalized(baseline.value)
  {
    if baseline.None? {
      return true;
    }
    if actual.None? {
      return true;
    }
    var a := Normalize(actual.value);
    var b := Normalize(baseline.value);
    edited := a != b;
  }

  // ------------------------------------------------------ what is left of a text

  /** Paragraph lines with one blank line for each gap between them. */
  datatype Body = Body(lines: seq<string>, gap: bool)

  /** A body with one more line. */
  function Extended(before: Body, x: string): Body {
    if x == "" then Body(before.lines, before.lines != [])
    else Body(before.lines + (if before.gap then [""] else []) + [x], false)
  }

  function BodyOf(lines: seq<string>): Body {
    if lines == [] then Body([], false)
    else
      var before, x := BodyOf(lines[..|lines| - 1]), lines[|lines| - 1];
      Extended(before, x)
  }

  lemma BodySnoc(lines: seq<string>, x: string)
    ensures BodyOf(lines + [x]) == Extended(BodyOf(lines), x)
  {
    assert (lines + [x])[..|lines|] == lines;
  }

  /** The first line without its indent. */
  function Unindented(lines: seq<string>): seq<string> {
    if lines == [] then [] else [LStrip(lines[0])] + lines[1..]
  }

  function CoreOf(lines: seq<string>): seq<string> {
    Unindented(BodyOf(Stripped(lines)).lines)
  }

  /** The text without its outer blank lines and the indent of its first line. */
  function Core(text: string): seq<string> {
    CoreOf(SplitLines(text))
  }

  // ----------------------------------------------- normalising is joining the core

  predicate Ended(line: string) {
    line == "" || !IsSpace(line[|line| - 1])
  }

  lemma {:induction false} RStripEnds(s: string)
    ensures Ended(RStrip(s))
    ensures NoBreak(s) ==> NoBreak(RStrip(s))
    ensures Ended(s) ==> RStrip(s) == s
  {
    if s != "" && IsSpace(s[|s| - 1]) {
      RStripEnds(s[..|s| - 1]);
    }
  }

  /** Collapsing leaves the body, a leading blank line perhaps, and a trailing one after a gap. */
  lemma {:induction false} CollapseAroundBody(lines: seq<string>) returns (lead: seq<string>)
    ensures lead == [] || lead == [""]
    ensures Collapse(lines) == lead + BodyOf(lines).lines + (if BodyOf(lines).gap then [""] else [])
    ensures BodyOf(lines).gap ==> BodyOf(lines).lines != [] && lines[|lines| - 1] == ""
    ensures BodyOf(lines).lines == [] ==> lead == if lines == [] then [] else [""]
    ensures lines != [] && lines[|lines| - 1] == "" && BodyOf(lines).lines != [] ==> BodyOf(lines).gap
    ensures lines != [] && lines[|lines| - 1] != "" ==> !BodyOf(lines).gap && BodyOf(lines).lines != []
    ensures BodyOf(lines).lines == [] && lines != [] ==> lines[|lines| - 1] == ""
  {
    if lines == [] {
      lead := [];
    } else {
      var front, x := lines[..|lines| - 1], lines[|lines| - 1];
      lead := CollapseAroundBody(front);
      var b := BodyOf(front);
      var tail := if b.gap then [""] else [];
      if x == "" {
        if b.lines == [] {
          lead := [""];
        } else if !b.gap {
          assert lead + b.lines + [] + [""] == lead + b.lines + [""];
        }
      } else {
        assert lead + b.lines + tail + [x] == lead + (b.lines + tail + [x]);
      }
    }
  }

  /** A body starts and ends with a line that is not blank, and never has two blanks in a row. */
  ghost predicate IsBody(lines: seq<string>) {
    && (lines != [] ==> lines[0] != "" && lines[|lines| - 1] != "")
    && (forall i :: 0 < i < |lines| && lines[i] == "" ==> lines[i - 1] != "")
    && (forall i :: 0 <= i < |lines| ==> Ended(lines[i]) && NoBreak(lines[i]))
  }

  lemma BodyGrows(lines: seq<string>, gap: bool, x: string)
    requires IsBody(lines) && x != "" && Ended(x) && NoBreak(x) && (gap ==> lines != [])
    ensures IsBody(lines + (if gap then [""] else []) + [x])
  {
    var all := lines + (if gap then [""] else []) + [x];
    forall i | 0 <= i < |all|
      ensures Ended(all[i]) && NoBreak(all[i])
      ensures 0 < i && all[i] == "" ==> all[i - 1] != ""
    {
      assert i < |lines| ==> all[i] == lines[i];
      assert 0 < i <= |lines| ==> all[i - 1] == lines[i - 1];
    }
  }

  lemma {:induction false} BodyIsBody(lines: seq<string>)
    requires forall i :: 0 <= i < |lines| ==> Ended(lines[i]) && NoBreak(lines[i])
    ensures IsBody(BodyOf(lines).lines)
    ensures BodyOf(lines).gap ==> BodyOf(lines).lines != []
  {
    if lines != [] {
      var front, x := lines[..|lines| - 1], lines[|lines| - 1];
      BodyIsBody(front);
      if x != "" {
        BodyGrows(BodyOf(front).lines, BodyOf(front).gap, x);
      }
    }
  }

  lemma JoinSnoc(lines: seq<string>, x: string)
    requires lines != []
    ensures Join(lines + [x]) == Join(lines) + ['\n'] + x
  {
    assert (lines + [x])[..|lines|] == lines;
  }

  lemma {:induction false} JoinCons(x: string, lines: seq<string>)
    requires lines != []
    ensures Join([x] + lines) == x + ['\n'] + Join(lines)
  {
    var front, last := lines[..|lines| - 1], lines[|lines| - 1];
    assert ([x] + lines)[..|lines|] == [x] + front;
    if front == [] {
      assert [x] + front == [x];
    } else {
      JoinCons(x, front);
      assert x + ['\n'] + Join(front) + ['\n'] + last == x + ['\n'] + (Join(front) + ['\n'] + last);
    }
  }

  lemma {:induction false} LStripHead(a: string, b: string)
    requires a != "" && Ended(a)
    ensures LStrip(a) != "" && LStrip(a + b) == LStrip(a) + b
    ensures Ended(LStrip(a)) && !IsSpace(LStrip(a)[0])
    ensures NoBreak(a) ==> NoBreak(LStrip(a))
  {
    if IsSpace(a[0]) {
      assert (a + b)[1..] == a[1..] + b;
      LStripHead(a[1..], b);
    }
  }

  lemma RStripTail(s: string, c: char)
    requires IsSpace(c)
    ensures RStrip(s + [c]) == RStrip(s)
  {
    assert (s + [c])[..|s|] == s;
  }

  lemma {:induction false} JoinEnds(lines: seq<string>)
    requires lines != [] && lines[|lines| - 1] != ""
    ensures Join(lines) != "" && Join(lines)[|Join(lines)| - 1] == lines[|lines| - 1][|lines[|lines| - 1]| - 1]
  {
  }

  /** What follows the first line. */
  function Tail(rest: seq<string>): string {
    if rest == [] then "" else ['\n'] + Join(rest)
  }

  lemma JoinHead(x: string, rest: seq<string>)
    ensures Join([x] + rest) == x + Tail(rest)
  {
    if rest == [] {
      assert [x] + rest == [x] && x + "" == x;
    } else {
      JoinCons(x, rest);
      assert x + ['\n'] + Join(rest) == x + (['\n'] + Join(rest));
    }
  }

  lemma StripHead(x: string, rest: seq<string>)
    requires x != "" && Ended(x) && (rest != [] ==> rest[|rest| - 1] != "" && Ended(rest[|rest| - 1]))
    ensures LStrip(x + Tail(rest)) == LStrip(x) + Tail(rest) != ""
    ensures Strip(x + Tail(rest)) == LStrip(x) + Tail(rest)
  {
    LStripHead(x, Tail(rest));
    if rest != [] {
      JoinEnds(rest);
    }
    RStripEnds(LStrip(x) + Tail(rest));
  }

  /** The first line loses its indent, the rest is kept. */
  lemma StripJoin(lines: seq<string>)
    requires IsBody(lines) && lines != []
    ensures Strip(Join(lines)) == Join([LStrip(lines[0])] + lines[1..])
    ensures Strip(Join(lines)) == LStrip(Join(lines)) != ""
  {
    assert lines == [lines[0]] + lines[1..];
    JoinHead(lines[0], lines[1..]);
    JoinHead(LStrip(lines[0]), lines[1..]);
    StripHead(lines[0], lines[1..]);
  }

  lemma StripLead(lines: seq<string>)
    requires IsBody(lines) && lines != []
    ensures LStrip(Join([""] + lines)) == LStrip(Join(lines))
  {
    JoinCons("", lines);
    assert "" + ['\n'] + Join(lines) == ['\n'] + Join(lines);
    assert (['\n'] + Join(lines))[1..] == Join(lines);
  }

  lemma StripGap(all: seq<string>, lines: seq<string>)
    requires all != [] && IsBody(lines) && lines != [] && LStrip(Join(all)) == LStrip(Join(lines))
    ensures Strip(Join(all + [""])) == Strip(Join(lines))
  {
    JoinSnoc(all, "");
    assert Join(all) + ['\n'] + "" == Join(all) + ['\n'];
    StripBreak(Join(all), lines);
  }

  lemma StripAround(lead: seq<string>, lines: seq<string>, gap: bool)
    requires lead == [] || lead == [""]
    requires IsBody(lines) && lines != []
    ensures Strip(Join(lead + lines + (if gap then [""] else []))) == Strip(Join(lines))
  {
    var all := lead + lines;
    if lead == [] {
      assert all == lines;
    } else {
      StripLead(lines);
    }
    if gap {
      StripGap(all, lines);
    } else {
      assert all + [] == all;
    }
  }

  lemma StripBreak(s: string, lines: seq<string>)
    requires IsBody(lines) && lines != [] && LStrip(s) == LStrip(Join(lines))
    ensures Strip(s + ['\n']) == Strip(s)
  {
    StripJoin(lines);
    LStripKeepsTail(s, '\n');
    RStripTail(LStrip(s), '\n');
  }

  lemma {:induction false} LStripKeepsTail(s: string, c: char)
    ensures LStrip(s) != "" ==> LStrip(s + [c]) == LStrip(s) + [c]
    ensures LStrip(s) == "" && IsSpace(c) ==> LStrip(s + [c]) == ""
  {
    if s != "" && IsSpace(s[0]) {
      assert (s + [c])[1..] == s[1..] + [c];
      LStripKeepsTail(s[1..], c);
    } else if s == "" {
      assert s + [c] == [c] && [c][1..] == "";
    }
  }

  lemma {:induction false} SplitNoBreak(s: string)
    ensures forall i :: 0 <= i < |Split(s).lines| ==> NoBreak(Split(s).lines[i])
    ensures NoBreak(Split(s).open)
  {
    if s != "" {
      SplitNoBreak(s[..|s| - 1]);
    }
  }

  lemma StrippedIsClean(text: string)
    ensures forall i :: 0 <= i < |Stripped(SplitLines(text))| ==>
              Ended(Stripped(SplitLines(text))[i]) && NoBreak(Stripped(SplitLines(text))[i])
  {
    SplitNoBreak(text);
    var lines := SplitLines(text);
    forall i | 0 <= i < |lines|
      ensures Ended(RStrip(lines[i])) && NoBreak(RStrip(lines[i]))
    {
      RStripEnds(lines[i]);
    }
  }

  /** A normal form is the join of the text's core. */
  lemma NormalizedIsCore(text: string)
    ensures Normalized(text) == Join(Core(text))
  {
    var lines := Stripped(SplitLines(text));
    var body := BodyOf(lines);
    StrippedIsClean(text);
    BodyIsBody(lines);
    var lead := CollapseAroundBody(lines);
    if body.lines == [] {
      assert Collapse(lines) == lead;
      assert Join([""]) == "" && Join([]) == "";
    } else {
      StripAround(lead, body.lines, body.gap);
      StripJoin(body.lines);
    }
  }

  // ------------------------------------------------------------------ idempotence

  lemma SplitSnoc(s: string, c: char)
    ensures
      var before := Split(s);
      Split(s + [c]) ==
        if c == '\n' && before.afterReturn then before.(afterReturn := false)
        else if IsBreak(c) then Splitting(before.lines + [before.open], "", c == '\r')
        else Splitting(before.lines, before.open + [c], false)
  {
    assert (s + [c])[..|s|] == s;
  }

  lemma {:induction false} SplitExtends(s: string, line: string)
    requires NoBreak(line) && !Split(s).afterReturn
    ensures Split(s + line) == Splitting(Split(s).lines, Split(s).open + line, false)
  {
    if line == "" {
      assert s + line == s;
      assert Split(s).open + line == Split(s).open;
    } else {
      var front, c := line[..|line| - 1], line[|line| - 1];
      SplitExtends(s, front);
      assert s + line == (s + front) + [c];
      SplitSnoc(s + front, c);
      assert Split(s).open + front + [c] == Split(s).open + line;
    }
  }

  /** Splitting undoes joining, all but an empty last line. */
  lemma {:induction false} SplitJoin(lines: seq<string>)
    requires lines != [] && forall i :: 0 <= i < |lines| ==> NoBreak(lines[i])
    ensures Split(Join(lines)) == Splitting(lines[..|lines| - 1], lines[|lines| - 1], false)
  {
    var front, last := lines[..|lines| - 1], lines[|lines| - 1];
    if front == [] {
      SplitExtends("", last);
      assert "" + last == last;
    } else {
      SplitJoin(front);
      SplitSnoc(Join(front), '\n');
      SplitExtends(Join(front) + ['\n'], last);
      assert front[..|front| - 1] + [front[|front| - 1]] == front;
      assert "" + last == last;
    }
  }

  lemma SplitLinesOf(text: string, lines: seq<string>)
    requires lines != [] && Split(text) == Splitting(lines[..|lines| - 1], lines[|lines| - 1], false)
    ensures SplitLines(text) == if lines[|lines| - 1] == "" then lines[..|lines| - 1] else lines
  {
    assert lines == lines[..|lines| - 1] + [lines[|lines| - 1]];
  }

  /** The first `n` lines of a body, a last blank line taken as a gap. */
  function Prefix(lines: seq<string>, n: nat): Body
    requires n <= |lines|
  {
    if n > 0 && lines[n - 1] == "" then Body(lines[..n - 1], true) else Body(lines[..n], false)
  }

  lemma PrefixGrows(lines: seq<string>, n: nat)
    requires IsBody(lines) && 0 < n <= |lines|
    ensures Prefix(lines, n) == Extended(Prefix(lines, n - 1), lines[n - 1])
  {
    if n > 1 && lines[n - 2] == "" {
      assert lines[..n] == lines[..n - 2] + [""] + [lines[n - 1]];
    } else if lines[n - 1] != "" {
      assert lines[..n] == lines[..n - 1] + [] + [lines[n - 1]];
    }
  }

  lemma BodyGrowsBy(lines: seq<string>, n: nat)
    requires 0 < n <= |lines|
    ensures BodyOf(lines[..n]) == Extended(BodyOf(lines[..n - 1]), lines[n - 1])
  {
    assert lines[..n][..n - 1] == lines[..n - 1];
  }

  lemma {:induction false} BodyOfBody(lines: seq<string>, n: nat)
    requires IsBody(lines) && n <= |lines|
    ensures BodyOf(lines[..n]) == Prefix(lines, n)
  {
    if n > 0 {
      BodyOfBody(lines, n - 1);
      BodyGrowsBy(lines, n);
      PrefixGrows(lines, n);
    }
  }

  lemma UnindentedIsBody(lines: seq<string>)
    requires IsBody(lines) && lines != []
    ensures IsBody([LStrip(lines[0])] + lines[1..])
    ensures LStrip(LStrip(lines[0])) == LStrip(lines[0])
  {
    LStripHead(lines[0], "");
    var all := [LStrip(lines[0])] + lines[1..];
    assert forall i :: 0 < i < |all| ==> all[i] == lines[i];
  }

  lemma CoreIsBody(text: string)
    ensures IsBody(Core(text))
    ensures Core(text) != [] ==> LStrip(Core(text)[0]) == Core(text)[0]
  {
    StrippedIsClean(text);
    BodyIsBody(Stripped(SplitLines(text)));
    var body := BodyOf(Stripped(SplitLines(text))).lines;
    if body != [] {
      UnindentedIsBody(body);
    }
  }

  lemma StrippedAlready(lines: seq<string>)
    requires forall i :: 0 <= i < |lines| ==> Ended(lines[i])
    ensures Stripped(lines) == lines
  {
    forall i | 0 <= i < |lines|
      ensures RStrip(lines[i]) == lines[i]
    {
      RStripEnds(lines[i]);
    }
  }

  lemma CoreOfCore(core: seq<string>)
    requires IsBody(core) && (core != [] ==> LStrip(core[0]) == core[0])
    ensures CoreOf(core) == core
  {
    StrippedAlready(core);
    BodyOfBody(core, |core|);
    assert core[..|core|] == core;
    assert core != [] ==> [core[0]] + core[1..] == core;
  }

  lemma CoreOfJoin(core: seq<string>)
    requires IsBody(core) && (core != [] ==> LStrip(core[0]) == core[0])
    ensures Core(Join(core)) == core
  {
    CoreOfCore(core);
    if core == [] {
      assert SplitLines("") == [];
    } else {
      SplitJoin(core);
      SplitLinesOf(Join(core), core);
    }
  }

  /** The core of a normal form is the core it was made of. */
  lemma CoreOfNormalized(text: string)
    ensures Core(Normalized(text)) == Core(text)
  {
    NormalizedIsCore(text);
    CoreIsBody(text);
    CoreOfJoin(Core(text));
  }

  /** Normalising twice is normalising once. */
  lemma NormalizedTwice(text: string)
    ensures Normalized(Normalized(text)) == Normalized(text)
  {
    NormalizedIsCore(text);
    NormalizedIsCore(Normalized(text));
    CoreOfNormalized(text);
  }

  /** Texts have one normal form exactly when they have one core. */
  lemma SameNormalFormIffSameCore(a: string, b: string)
    ensures Normalized(a) == Normalized(b) <==> Core(a) == Core(b)
  {
    NormalizedIsCore(a);
    NormalizedIsCore(b);
    CoreOfNormalized(a);
    CoreOfNormalized(b);
  }

  // ------------------------------------------------------- tidying is not editing

  ghost predicate Unbroken(lines: seq<string>) {
    forall i :: 0 <= i < |lines| ==> NoBreak(lines[i])
  }

  ghost predicate Blank(line: string) {
    AllSpace(line) && NoBreak(line)
  }

  /** Blanks are put at the end of line `i`. */
  ghost predicate PadsLine(a: seq<string>, b: seq<string>) {
    exists i, pad :: 0 <= i < |a| && Blank(pad) && b == a[i := a[i] + pad]
  }

  /** A blank line is put first, last, or next to another blank line. */
  ghost predicate AddsBlank(a: seq<string>, b: seq<string>) {
    exists i, blank ::
      && 0 <= i <= |a| && Blank(blank) && b == a[..i] + [blank] + a[i..]
      && (i == 0 || i == |a| || AllSpace(a[i]) || AllSpace(a[i - 1]))
  }

  /** The texts of `a` and `b`, as lists of lines, differ by one such change, either way round. */
  ghost predicate Tidies(a: seq<string>, b: seq<string>) {
    PadsLine(a, b) || PadsLine(b, a) || AddsBlank(a, b) || AddsBlank(b, a)
  }

  function BodyFrom(start: Body, lines: seq<string>): Body {
    if lines == [] then start else Extended(BodyFrom(start, lines[..|lines| - 1]), lines[|lines| - 1])
  }

  lemma {:induction false} BodyAppend(a: seq<string>, b: seq<string>)
    ensures BodyOf(a + b) == BodyFrom(BodyOf(a), b)
  {
    if b == [] {
      assert a + b == a;
    } else {
      BodyAppend(a, b[..|b| - 1]);
      assert a + b == (a + b[..|b| - 1]) + [b[|b| - 1]];
      BodySnoc(a + b[..|b| - 1], b[|b| - 1]);
    }
  }

  function Blanked(b: Body): Body {
    Body(b.lines, b.lines != [])
  }

  /** The body of `a`, a blank line and `b`. */
  lemma BodyThroughBlank(a: seq<string>, b: seq<string>, all: seq<string>)
    requires all == a + [""] + b
    ensures BodyOf(all) == BodyFrom(Blanked(BodyOf(a)), b)
  {
    BodySnoc(a, "");
    BodyAppend(a + [""], b);
  }

  lemma BlankAfterBlank(a: seq<string>, b: seq<string>, lines: seq<string>, more: seq<string>)
    requires lines == a + [""] + b && more == a + [""] + [""] + b
    ensures BodyOf(more).lines == BodyOf(lines).lines
  {
    BodyThroughBlank(a, b, lines);
    BodyThroughBlank(a + [""], b, more);
    BodySnoc(a, "");
  }

  /** A blank line more at an end or in a gap leaves the same body. */
  lemma BodyWithBlank(lines: seq<string>, i: nat, more: seq<string>)
    requires i <= |lines| && (i == 0 || i == |lines| || lines[i] == "" || lines[i - 1] == "")
    requires more == lines[..i] + [""] + lines[i..]
    ensures BodyOf(more).lines == BodyOf(lines).lines
  {
    if i == 0 {
      assert more == [""] + lines;
      assert more == [] + [""] + lines && lines == [] + lines;
      BodyThroughBlank([], lines, more);
      BodyAppend([], lines);
    } else if i == |lines| {
      assert more == lines + [""];
      BodySnoc(lines, "");
    } else if lines[i - 1] == "" {
      assert lines == lines[..i - 1] + [""] + lines[i..] && lines[..i] == lines[..i - 1] + [""];
      BlankAfterBlank(lines[..i - 1], lines[i..], lines, more);
    } else {
      assert lines == lines[..i] + [""] + lines[i + 1..] && lines[i..] == [""] + lines[i + 1..];
      assert more == lines[..i] + [""] + [""] + lines[i + 1..];
      BlankAfterBlank(lines[..i], lines[i + 1..], lines, more);
    }
  }

  lemma {:induction false} RStripBlank(s: string, pad: string)
    requires AllSpace(pad)
    ensures RStrip(s + pad) == RStrip(s)
  {
    if pad == "" {
      assert s + pad == s;
    } else {
      assert s + pad == (s + pad[..|pad| - 1]) + [pad[|pad| - 1]];
      RStripTail(s + pad[..|pad| - 1], pad[|pad| - 1]);
      RStripBlank(s, pad[..|pad| - 1]);
    }
  }

  lemma RStripAllSpace(s: string)
    requires AllSpace(s)
    ensures RStrip(s) == ""
  {
    RStripBlank("", s);
    assert "" + s == s;
  }

  lemma CoreOfPadded(a: seq<string>, b: seq<string>)
    requires PadsLine(a, b)
    ensures CoreOf(a) == CoreOf(b)
  {
    var i, pad :| 0 <= i < |a| && Blank(pad) && b == a[i := a[i] + pad];
    RStripBlank(a[i], pad);
    assert Stripped(a) == Stripped(b);
  }

  lemma StrippedInsert(lines: seq<string>, i: nat, x: string)
    requires i <= |lines|
    ensures Stripped(lines[..i] + [x] + lines[i..]) == Stripped(lines)[..i] + [RStrip(x)] + Stripped(lines)[i..]
  {
  }

  lemma CoreWithBlank(lines: seq<string>, i: nat, blank: string)
    requires i <= |lines| && AllSpace(blank)
    requires i == 0 || i == |lines| || AllSpace(lines[i]) || AllSpace(lines[i - 1])
    ensures CoreOf(lines[..i] + [blank] + lines[i..]) == CoreOf(lines)
  {
    RStripAllSpace(blank);
    StrippedInsert(lines, i, blank);
    if i < |lines| && AllSpace(lines[i]) {
      RStripAllSpace(lines[i]);
    }
    if i > 0 && AllSpace(lines[i - 1]) {
      RStripAllSpace(lines[i - 1]);
    }
    BodyWithBlank(Stripped(lines), i, Stripped(lines[..i] + [blank] + lines[i..]));
  }

  lemma CoreOfWidened(a: seq<string>, b: seq<string>)
    requires AddsBlank(a, b)
    ensures CoreOf(a) == CoreOf(b)
  {
    var i, blank :|
      && 0 <= i <= |a| && Blank(blank) && b == a[..i] + [blank] + a[i..]
      && (i == 0 || i == |a| || AllSpace(a[i]) || AllSpace(a[i - 1]));
    CoreWithBlank(a, i, blank);
  }

  lemma CoreWithoutLast(front: seq<string>)
    ensures CoreOf(front + [""]) == CoreOf(front)
  {
    CoreWithBlank(front, |front|, "");
    assert front[..|front|] + [""] + front[|front|..] == front + [""];
  }

  /** The core of a text is the core of its lines. */
  lemma CoreOfText(lines: seq<string>)
    requires Unbroken(lines)
    ensures Core(Join(lines)) == CoreOf(lines)
  {
    if lines == [] {
      assert SplitLines("") == [];
    } else {
      SplitJoin(lines);
      SplitLinesOf(Join(lines), lines);
      var front, last := lines[..|lines| - 1], lines[|lines| - 1];
      assert lines == front + [last];
      if last == "" {
        CoreWithoutLast(front);
      }
    }
  }

  // ------------------------------------------------- no edit is tidying and indenting

  /** Another indent for the first line, which is not blank. */
  ghost predicate Reindents(a: seq<string>, b: seq<string>) {
    a != [] && b != [] && a[1..] == b[1..] && LStrip(a[0]) == LStrip(b[0]) && LStrip(a[0]) != ""
  }

  ghost predicate Step(a: seq<string>, b: seq<string>) {
    Tidies(a, b) || Reindents(a, b)
  }

  /** A series of versions of a text, as lists of lines, each one step from the one before. */
  ghost predicate Chain(versions: seq<seq<string>>) {
    && versions != []
    && (forall k :: 0 <= k < |versions| ==> Unbroken(versions[k]))
    && (forall k :: 0 < k < |versions| ==> Step(versions[k - 1], versions[k]))
  }

  ghost predicate Links(versions: seq<seq<string>>, a: seq<string>, b: seq<string>) {
    Chain(versions) && versions[0] == a && versions[|versions| - 1] == b
  }

  ghost predicate Reaches(a: seq<string>, b: seq<string>) {
    exists versions :: Links(versions, a, b)
  }

  lemma ReachesNext(a: seq<string>, b: seq<string>, c: seq<string>)
    requires Reaches(a, b) && Unbroken(c) && Step(b, c)
    ensures Reaches(a, c)
  {
    var versions :| Links(versions, a, b);
    var more := versions + [c];
    forall k | 0 < k < |more|
      ensures Step(more[k - 1], more[k])
    {
      assert k < |versions| ==> Step(versions[k - 1], versions[k]);
    }
    assert Links(more, a, c);
  }

  lemma {:induction false} ReachesBack(versions: seq<seq<string>>, a: seq<string>, b: seq<string>)
    requires Links(versions, a, b)
    ensures Reaches(b, a)
    decreases |versions|
  {
    if |versions| == 1 {
      assert Links([b], b, a);
    } else {
      var rest := versions[1..];
      forall k | 0 < k < |rest|
        ensures Step(rest[k - 1], rest[k])
      {
        assert Step(versions[k], versions[k + 1]);
      }
      ReachesBack(rest, versions[1], b);
      assert Step(versions[0], versions[1]);
      ReachesNext(b, versions[1], a);
    }
  }

  lemma {:induction false} ReachesThrough(versions: seq<seq<string>>, a: seq<string>, b: seq<string>, c: seq<string>)
    requires Reaches(a, b) && Links(versions, b, c)
    ensures Reaches(a, c)
    decreases |versions|
  {
    if |versions| > 1 {
      var rest := versions[1..];
      forall k | 0 < k < |rest|
        ensures Step(rest[k - 1], rest[k])
      {
        assert Step(versions[k], versions[k + 1]);
      }
      assert Step(versions[0], versions[1]);
      ReachesNext(a, b, versions[1]);
      ReachesThrough(rest, a, versions[1], c);
    }
  }

  // ------------------------------------------------------------ every text reaches its core

  lemma {:induction false} RStripSplits(s: string) returns (pad: string)
    requires NoBreak(s)
    ensures s == RStrip(s) + pad && Blank(pad)
  {
    if s == "" || !IsSpace(s[|s| - 1]) {
      pad := "";
    } else {
      pad := RStripSplits(s[..|s| - 1]);
      pad := pad + [s[|s| - 1]];
      assert s == s[..|s| - 1] + [s[|s| - 1]];
    }
  }

  /** The first `n` lines without their trailing blanks. */
  function StrippedUpTo(lines: seq<string>, n: nat): seq<string>
    requires n <= |lines|
  {
    Stripped(lines[..n]) + lines[n..]
  }

  lemma StripOne(lines: seq<string>, n: nat)
    requires Unbroken(lines) && n < |lines|
    ensures Step(StrippedUpTo(lines, n), StrippedUpTo(lines, n + 1))
  {
    var before, after := StrippedUpTo(lines, n), StrippedUpTo(lines, n + 1);
    var pad := RStripSplits(lines[n]);
    assert after[n] == RStrip(lines[n]) && before[n] == lines[n];
    assert before == after[n := after[n] + pad];
    assert PadsLine(after, before);
  }

  lemma StrippedIsUnbroken(lines: seq<string>, n: nat)
    requires Unbroken(lines) && n <= |lines|
    ensures Unbroken(StrippedUpTo(lines, n))
  {
    forall i | 0 <= i < n
      ensures NoBreak(RStrip(lines[i]))
    {
      RStripEnds(lines[i]);
    }
  }

  lemma {:induction false} ReachesStripped(lines: seq<string>, n: nat)
    requires Unbroken(lines) && n <= |lines|
    ensures Reaches(lines, StrippedUpTo(lines, n))
  {
    if n == 0 {
      assert StrippedUpTo(lines, 0) == lines;
      assert Links([lines], lines, lines);
    } else {
      ReachesStripped(lines, n - 1);
      StripOne(lines, n - 1);
      StrippedIsUnbroken(lines, n);
      ReachesNext(lines, StrippedUpTo(lines, n - 1), StrippedUpTo(lines, n));
    }
  }

  /** The body with its gap. */
  function Full(b: Body): seq<string> {
    b.lines + (if b.gap then [""] else [])
  }

  lemma UnbrokenParts(a: seq<string>, b: seq<string>)
    ensures Unbroken(a + b) <==> Unbroken(a) && Unbroken(b)
  {
    if Unbroken(a + b) {
      assert forall i :: 0 <= i < |a| ==> (a + b)[i] == a[i];
      assert forall i :: 0 <= i < |b| ==> (a + b)[|a| + i] == b[i];
    }
  }

  lemma {:induction false} FullIsUnbroken(lines: seq<string>)
    requires Unbroken(lines)
    ensures Unbroken(Full(BodyOf(lines)))
    ensures BodyOf(lines).gap ==> BodyOf(lines).lines != []
  {
    if lines != [] {
      var front, x := lines[..|lines| - 1], lines[|lines| - 1];
      var before := BodyOf(front);
      FullIsUnbroken(front);
      if x == "" {
        UnbrokenParts(before.lines, if before.gap then [""] else []);
        UnbrokenParts(before.lines, [""]);
      } else {
        UnbrokenParts(Full(before), [x]);
        assert Full(BodyOf(lines)) == Full(before) + [x];
      }
    }
  }

  /** A blank line that the body does not keep, `rest` following, is taken out. */
  lemma DropBlank(before: Body, rest: seq<string>)
    requires before.gap ==> before.lines != []
    ensures
      var after := Body(before.lines, before.lines != []);
      Full(before) + [""] + rest == Full(after) + rest || Step(Full(before) + [""] + rest, Full(after) + rest)
  {
    var full := Full(before);
    var longer, shorter := full + [""] + rest, full + rest;
    if before.gap || before.lines == [] {
      assert longer == shorter[..|full|] + [""] + shorter[|full|..];
      assert before.gap ==> shorter[|full| - 1] == "";
      assert AllSpace("") && NoBreak("");
      assert AddsBlank(shorter, longer);
    }
  }

  /** Blank lines go until the body is left, whatever follows. */
  lemma {:induction false} ReachesBody(lines: seq<string>, rest: seq<string>)
    requires Unbroken(lines + rest)
    ensures Reaches(lines + rest, Full(BodyOf(lines)) + rest)
    decreases |lines|
  {
    UnbrokenParts(lines, rest);
    if lines == [] {
      assert Full(BodyOf(lines)) + rest == rest && lines + rest == rest;
      assert Links([rest], rest, rest);
    } else {
      var front, x := lines[..|lines| - 1], lines[|lines| - 1];
      var before := BodyOf(front);
      assert lines + rest == front + ([x] + rest);
      ReachesBody(front, [x] + rest);
      assert Full(before) + ([x] + rest) == Full(before) + [x] + rest;
      FullIsUnbroken(lines);
      UnbrokenParts(Full(BodyOf(lines)), rest);
      FullIsUnbroken(front);
      if x == "" {
        DropBlank(before, rest);
        if Full(before) + [""] + rest != Full(BodyOf(lines)) + rest {
          ReachesNext(lines + rest, Full(before) + [""] + rest, Full(BodyOf(lines)) + rest);
        }
      } else {
        assert Full(BodyOf(lines)) == Full(before) + [x];
      }
    }
  }

  lemma Unindents(lines: seq<string>)
    requires IsBody(lines) && lines != []
    ensures Step(lines, Unindented(lines)) && Unbroken(Unindented(lines))
  {
    UnindentedIsBody(lines);
    LStripHead(lines[0], "");
    assert Reindents(lines, Unindented(lines));
  }

  /** Every text reaches its core. */
  lemma ReachesCore(lines: seq<string>)
    requires Unbroken(lines)
    ensures Reaches(lines, CoreOf(lines))
  {
    var stripped := Stripped(lines);
    ReachesStripped(lines, |lines|);
    assert StrippedUpTo(lines, |lines|) == stripped;
    StrippedIsUnbroken(lines, |lines|);
    ReachesBody(stripped, []);
    assert stripped + [] == stripped && Full(BodyOf(stripped)) + [] == Full(BodyOf(stripped));
    var versions :| Links(versions, stripped, Full(BodyOf(stripped)));
    ReachesThrough(versions, lines, stripped, Full(BodyOf(stripped)));
    forall i | 0 <= i < |stripped|
      ensures Ended(stripped[i]) && NoBreak(stripped[i])
    {
      RStripEnds(lines[i]);
    }
    BodyIsBody(stripped);
    var body := BodyOf(stripped);
    if body.gap {
      assert AllSpace("") && NoBreak("");
      assert Full(body) == body.lines[..|body.lines|] + [""] + body.lines[|body.lines|..];
      assert AddsBlank(body.lines, Full(body));
      ReachesNext(lines, Full(body), body.lines);
    } else {
      assert Full(body) == body.lines;
    }
    if body.lines != [] {
      Unindents(body.lines);
      ReachesNext(lines, body.lines, Unindented(body.lines));
    }
  }

  // --------------------------------------------------------- every step keeps the core

  lemma {:induction false} StripCommutes(s: string)
    requires LStrip(s) != ""
    ensures LStrip(RStrip(s)) == RStrip(LStrip(s)) && RStrip(s) != ""
  {
    if IsSpace(s[|s| - 1]) {
      var front, c := s[..|s| - 1], s[|s| - 1];
      assert s == front + [c];
      LStripKeepsTail(front, c);
      StripCommutes(front);
      RStripTail(LStrip(front), c);
    } else {
      NotAllSpace(s);
    }
  }

  lemma {:induction false} NotAllSpace(s: string)
    requires s != "" && !IsSpace(s[|s| - 1])
    ensures LStrip(s) != "" && LStrip(s)[|LStrip(s)| - 1] == s[|s| - 1]
  {
    if IsSpace(s[0]) {
      NotAllSpace(s[1..]);
    }
  }

  lemma {:induction false} BodySameTail(x: string, y: string, rest: seq<string>)
    ensures
      var a, b := BodyFrom(Body([x], false), rest), BodyFrom(Body([y], false), rest);
      && a.lines != [] && b.lines != [] && a.lines[0] == x && b.lines[0] == y
      && a.lines[1..] == b.lines[1..] && a.gap == b.gap
  {
    if rest != [] {
      BodySameTail(x, y, rest[..|rest| - 1]);
    }
  }

  lemma BodyFromHead(x: string, rest: seq<string>)
    requires x != ""
    ensures BodyOf([x] + rest) == BodyFrom(Body([x], false), rest)
  {
    BodyAppend([x], rest);
    assert [x][..0] == [] && [] + [] + [x] == [x];
    assert BodyOf([x]) == Body([x], false);
  }

  lemma CoreOfReindented(a: seq<string>, b: seq<string>)
    requires Reindents(a, b)
    ensures CoreOf(a) == CoreOf(b)
  {
    StripCommutes(a[0]);
    StripCommutes(b[0]);
    var x, y, rest := RStrip(a[0]), RStrip(b[0]), Stripped(a[1..]);
    assert Stripped(a) == [x] + rest && Stripped(b) == [y] + rest;
    BodyFromHead(x, rest);
    BodyFromHead(y, rest);
    BodySameTail(x, y, rest);
  }

  lemma StepKeepsCore(a: seq<string>, b: seq<string>)
    requires Step(a, b)
    ensures CoreOf(a) == CoreOf(b)
  {
    if PadsLine(a, b) {
      CoreOfPadded(a, b);
    } else if PadsLine(b, a) {
      CoreOfPadded(b, a);
    } else if AddsBlank(a, b) {
      CoreOfWidened(a, b);
    } else if AddsBlank(b, a) {
      CoreOfWidened(b, a);
    } else {
      CoreOfReindented(a, b);
    }
  }

  lemma {:induction false} ChainKeepsCore(versions: seq<seq<string>>, n: nat)
    requires Chain(versions) && n < |versions|
    ensures CoreOf(versions[n]) == CoreOf(versions[0])
  {
    if n > 0 {
      ChainKeepsCore(versions, n - 1);
      StepKeepsCore(versions[n - 1], versions[n]);
    }
  }

  /**
   No edit is exactly tidying: two texts have one normal form if and only if one is
   reached from the other by changes of trailing blanks, of the number of blank lines in
   a gap or at an end, and of the first line's indent.
   */
  lemma NoEditIsTidying(a: seq<string>, b: seq<string>)
    requires Unbroken(a) && Unbroken(b)
    ensures Normalized(Join(a)) == Normalized(Join(b)) <==> Reaches(a, b)
  {
    CoreOfText(a);
    CoreOfText(b);
    SameNormalFormIffSameCore(Join(a), Join(b));
    if Reaches(a, b) {
      var versions :| Links(versions, a, b);
      ChainKeepsCore(versions, |versions| - 1);
    }
    if CoreOf(a) == CoreOf(b) {
      ReachesCore(a);
      ReachesCore(b);
      var versions :| Links(versions, b, CoreOf(b));
      ReachesBack(versions, b, CoreOf(b));
      var back :| Links(back, CoreOf(b), b);
      ReachesThrough(back, a, CoreOf(b), b);
    }
  }
}
