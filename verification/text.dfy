/** Whitespace, stripping and words, as the host language's string methods have them. */
module Text {

  /** The characters that `str.isspace` accepts. */
  predicate IsSpace(c: char) {
    var n := c as int;
    || 0x09 <= n <= 0x0D || 0x1C <= n <= 0x20 || n == 0x85 || n == 0xA0 || n == 0x1680
    || 0x2000 <= n <= 0x200A || n == 0x2028 || n == 0x2029 || n == 0x202F || n == 0x205F || n == 0x3000
  }

  predicate AllSpace(s: string) {
    forall i :: 0 <= i < |s| ==> IsSpace(s[i])
  }

  predicate NoSpace(s: string) {
    forall i :: 0 <= i < |s| ==> !IsSpace(s[i])
  }

  function LStrip(s: string): string {
    if s == "" || !IsSpace(s[0]) then s else LStrip(s[1..])
  }

  function RStrip(s: string): string {
    if s == "" || !IsSpace(s[|s| - 1]) then s else RStrip(s[..|s| - 1])
  }

  function Strip(s: string): string {
    RStrip(LStrip(s))
  }

  // --------------------------------------------------------------------- words

  /** The words completed by a left-to-right scan, and the one still open. */
  datatype Scan = Scan(words: seq<string>, open: string) {
    function Close(): seq<string> {
      if open == "" then words else words + [open]
    }
  }

  function ScanWords(s: string): Scan {
    if s == "" then Scan([], "")
    else
      var before, c := ScanWords(s[..|s| - 1]), s[|s| - 1];
      if IsSpace(c) then Scan(before.Close(), "") else Scan(before.words, before.open + [c])
  }

  /** The maximal runs of non-space characters. */
  function Words(s: string): seq<string> {
    ScanWords(s).Close()
  }

  /** A space ends one scan and begins another. */
  lemma {:induction false} ScanAfterSpace(a: string, sp: char, b: string)
    requires IsSpace(sp)
    ensures ScanWords(a + [sp] + b) == Scan(Words(a) + ScanWords(b).words, ScanWords(b).open)
  {
    if b == "" {
      assert a + [sp] + b == a + [sp];
      assert (a + [sp])[..|a|] == a;
      assert Words(a) + [] == Words(a);
    } else {
      var front, c := b[..|b| - 1], b[|b| - 1];
      assert a + [sp] + b == (a + [sp] + front) + [c];
      ScanAfterSpace(a, sp, front);
      assert (a + [sp] + front + [c])[..|a + [sp] + front|] == a + [sp] + front;
      var was := ScanWords(front);
      assert (Words(a) + was.words) + [was.open] == Words(a) + (was.words + [was.open]);
    }
  }

  lemma WordsAfterSpace(a: string, sp: char, b: string)
    requires IsSpace(sp)
    ensures Words(a + [sp] + b) == Words(a) + Words(b)
  {
    ScanAfterSpace(a, sp, b);
    var s := ScanWords(b);
    assert (Words(a) + s.words) + [s.open] == Words(a) + (s.words + [s.open]);
  }

  lemma {:induction false} ScanOneWord(s: string)
    requires NoSpace(s)
    ensures ScanWords(s) == Scan([], s)
  {
    if s != "" {
      ScanOneWord(s[..|s| - 1]);
    }
  }

  lemma WordsOfWord(s: string)
    requires NoSpace(s) && s != ""
    ensures Words(s) == [s]
  {
    ScanOneWord(s);
  }

  lemma {:induction false} StripNothing(s: string)
    requires s != "" && !IsSpace(s[0]) && !IsSpace(s[|s| - 1])
    ensures Strip(s) == s
    ensures Strip([' '] + s) == s
  {
    assert ([' '] + s)[1..] == s;
  }

  // ------------------------------------------------------------- joining and parting

  function Joined(parts: seq<string>, sep: string): string
    requires parts != []
  {
    if |parts| == 1 then parts[0] else Joined(parts[..|parts| - 1], sep) + sep + parts[|parts| - 1]
  }

  /** The parts that a separator has ended, and the one still open. */
  datatype Parting = Parting(ended: seq<string>, open: string)

  function Parted(s: string, sep: char): Parting {
    if s == "" then Parting([], "")
    else
      var before, c := Parted(s[..|s| - 1], sep), s[|s| - 1];
      if c == sep then Parting(before.ended + [before.open], "") else Parting(before.ended, before.open + [c])
  }

  predicate Without(s: string, sep: char) {
    forall i :: 0 <= i < |s| ==> s[i] != sep
  }

  lemma {:induction false} PartedExtends(s: string, part: string, sep: char)
    requires Without(part, sep)
    ensures Parted(s + part, sep) == Parting(Parted(s, sep).ended, Parted(s, sep).open + part)
  {
    if part == "" {
      assert s + part == s && Parted(s, sep).open + part == Parted(s, sep).open;
    } else {
      var front, c := part[..|part| - 1], part[|part| - 1];
      PartedExtends(s, front, sep);
      assert (s + part)[..|s + part| - 1] == s + front;
      assert Parted(s, sep).open + front + [c] == Parted(s, sep).open + part;
    }
  }

  lemma PartedAfter(s: string, part: string, sep: char)
    requires Without(part, sep)
    ensures Parted(s + [sep] + part, sep) == Parting(Parted(s, sep).ended + [Parted(s, sep).open], part)
  {
    assert (s + [sep])[..|s|] == s;
    PartedExtends(s + [sep], part, sep);
    assert "" + part == part;
  }

  /** Parting at the separator undoes joining. */
  lemma {:induction false} PartingUndoesJoining(parts: seq<string>, sep: char)
    requires parts != [] && forall i :: 0 <= i < |parts| ==> Without(parts[i], sep)
    ensures Parted(Joined(parts, [sep]), sep) == Parting(parts[..|parts| - 1], parts[|parts| - 1])
  {
    var front, last := parts[..|parts| - 1], parts[|parts| - 1];
    if |parts| == 1 {
      PartedExtends("", last, sep);
      assert "" + last == last;
    } else {
      PartingUndoesJoining(front, sep);
      PartedAfter(Joined(front, [sep]), last, sep);
      assert front == front[..|front| - 1] + [front[|front| - 1]];
    }
  }
}
