/**
 Log file names that no two different checks share.  Components are escaped so
 that they can be read back, and joined by a character no escape produces.
 */
module LogNames {
  import opened Encoding
  import opened Lists
  import opened Text

  // ------------------------------------------------------------------- escaping

  /** Letters, digits, dot, underscore and hyphen stand for themselves. */
  predicate IsLiteral(c: char) {
    'a' <= c <= 'z' || 'A' <= c <= 'Z' || '0' <= c <= '9' || c == '.' || c == '_' || c == '-'
  }

  function Hex(d: int): char
    requires 0 <= d < 16
  {
    if d < 10 then ('0' as int + d) as char else ('A' as int + d - 10) as char
  }

  /** Percent-encoding, section 2.1 of RFC 3986. */
  function Percent(bytes: seq<byte>): string {
    if bytes == [] then ""
    else Percent(bytes[..|bytes| - 1]) + ['%', Hex(bytes[|bytes| - 1] / 16), Hex(bytes[|bytes| - 1] % 16)]
  }

  function EscapedChar(c: char): string {
    if IsLiteral(c) then [c] else if c == '/' then "+" else Percent(Utf8(c))
  }

  function Escaped(part: string): string {
    if part == "" then "" else Escaped(part[..|part| - 1]) + EscapedChar(part[|part| - 1])
  }

  method PercentEncode(bytes: seq<byte>) returns (text: string)
    ensures text == Percent(bytes)
  {
    text := "";
    for j := 0 to |bytes|
      invariant text == Percent(bytes[..j])
    {
      assert bytes[..j + 1][..j] == bytes[..j];
      text := text + ['%', Hex(bytes[j] / 16), Hex(bytes[j] % 16)];
    }
    assert bytes[..|bytes|] == bytes;
  }

  method Escape(part: string) returns (token: string)
    ensures token == Escaped(part)
  {
    token := "";
    for i := 0 to |part|
      invariant token == Escaped(part[..i])
    {
      assert part[..i + 1][..i] == part[..i];
      if IsLiteral(part[i]) {
        token := token + [part[i]];
      } else if part[i] == '/' {
        token := token + "+";
      } else {
        var text := PercentEncode(Utf8(part[i]));
        token := token + text;
      }
    }
    assert part[..|part|] == part;
  }

  // --------------------------------------------------------------- reading it back

  function FromHex(c: char): int {
    if '0' <= c <= '9' then c as int - '0' as int else c as int - 'A' as int + 10
  }

  function ByteAt(s: string, i: nat): int
    requires 3 * i + 3 <= |s|
  {
    FromHex(s[3 * i + 1]) * 16 + FromHex(s[3 * i + 2])
  }

  /** The character that `s` starts with, as a number, and how much of `s` spells it. */
  function ReadChar(s: string): (r: (int, nat))
    requires s != ""
    ensures 0 < r.1
  {
    if s[0] == '+' then ('/' as int, 1)
    else if s[0] != '%' || |s| < 3 then (s[0] as int, 1)
    else
      var b0 := ByteAt(s, 0);
      var w := Width(b0);
      if |s| < 3 * w then (b0, 3)
      else if w == 1 then (b0, 3)
      else if w == 2 then ((b0 - 0xC0) * 0x40 + (ByteAt(s, 1) - 0x80), 6)
      else if w == 3 then ((b0 - 0xE0) * 0x1000 + (ByteAt(s, 1) - 0x80) * 0x40 + (ByteAt(s, 2) - 0x80), 9)
      else ((b0 - 0xF0) * 0x4_0000 + (ByteAt(s, 1) - 0x80) * 0x1000 + (ByteAt(s, 2) - 0x80) * 0x40
          + (ByteAt(s, 3) - 0x80), 12)
  }

  function Unescaped(s: string): seq<int> {
    if s == "" then []
    else
      var (n, used) := ReadChar(s);
      [n] + Unescaped(s[if used <= |s| then used else |s|..])
  }

  lemma HexReadsBack(d: int)
    requires 0 <= d < 16
    ensures FromHex(Hex(d)) == d
    ensures IsLiteral(Hex(d)) && Hex(d) != '~' && Hex(d) != '/'
  {
  }

  lemma {:induction false} PercentBytes(bytes: seq<byte>, rest: string, i: nat)
    requires i < |bytes|
    ensures |Percent(bytes)| == 3 * |bytes|
    ensures (Percent(bytes) + rest)[3 * i] == '%'
    ensures ByteAt(Percent(bytes) + rest, i) == bytes[i]
  {
    var front, b := bytes[..|bytes| - 1], bytes[|bytes| - 1];
    var last: string := ['%', Hex(b / 16), Hex(b % 16)];
    HexReadsBack(b / 16);
    HexReadsBack(b % 16);
    PercentLength(front);
    assert Percent(bytes) + rest == Percent(front) + (last + rest);
    if i < |front| {
      PercentBytes(front, last + rest, i);
    } else {
      assert (Percent(front) + (last + rest))[3 * i + 1] == Hex(b / 16);
      assert (Percent(front) + (last + rest))[3 * i + 2] == Hex(b % 16);
    }
  }

  lemma {:induction false} PercentLength(bytes: seq<byte>)
    ensures |Percent(bytes)| == 3 * |bytes|
  {
    if bytes != [] {
      PercentLength(bytes[..|bytes| - 1]);
    }
  }

  /** One escaped character is read back whatever follows it. */
  lemma EscapedCharReadsBack(c: char, rest: string)
    ensures EscapedChar(c) != ""
    ensures ReadChar(EscapedChar(c) + rest) == (c as int, |EscapedChar(c)|)
  {
    if !IsLiteral(c) && c != '/' {
      var bytes := Utf8(c);
      PercentLength(bytes);
      Utf8ReadsBack(c);
      PercentBytes(bytes, rest, 0);
      if |bytes| > 1 {
        PercentBytes(bytes, rest, 1);
      }
      if |bytes| > 2 {
        PercentBytes(bytes, rest, 2);
      }
      if |bytes| > 3 {
        PercentBytes(bytes, rest, 3);
      }
    }
  }

  lemma {:induction false} EscapedSplits(part: string, k: nat)
    requires k <= |part|
    ensures Escaped(part) == Escaped(part[..k]) + Escaped(part[k..])
  {
    if k == |part| {
      assert part[..k] == part && part[k..] == "";
    } else {
      var front, tail := part[..|part| - 1], part[k..];
      EscapedSplits(front, k);
      assert front[..k] == part[..k] && front[k..] == tail[..|tail| - 1] && tail[|tail| - 1] == part[|part| - 1];
      Assoc(Escaped(part[..k]), Escaped(front[k..]), EscapedChar(part[|part| - 1]));
    }
  }

  lemma EscapedOne(part: string)
    requires |part| == 1
    ensures Escaped(part) == EscapedChar(part[0])
  {
    assert part[..0] == "";
  }

  lemma UnescapedStep(c: char, rest: string)
    ensures Unescaped(EscapedChar(c) + rest) == [c as int] + Unescaped(rest)
  {
    EscapedCharReadsBack(c, rest);
    assert (EscapedChar(c) + rest)[|EscapedChar(c)|..] == rest;
  }

  lemma EscapedHead(part: string)
    requires part != ""
    ensures Escaped(part) == EscapedChar(part[0]) + Escaped(part[1..])
  {
    EscapedSplits(part, 1);
    EscapedOne(part[..1]);
  }

  /** Round trip: an escaped component decodes to itself. */
  lemma {:induction false} EscapedReadsBack(part: string)
    ensures Unescaped(Escaped(part)) == Codes(part)
  {
    if part != "" {
      EscapedReadsBack(part[1..]);
      calc {
        Unescaped(Escaped(part));
        { EscapedHead(part); }
        Unescaped(EscapedChar(part[0]) + Escaped(part[1..]));
        { UnescapedStep(part[0], Escaped(part[1..])); }
        [part[0] as int] + Unescaped(Escaped(part[1..]));
        Codes(part);
      }
    }
  }

  /** Different components never escape to the same token. */
  lemma EscapedIsInjective(a: string, b: string)
    requires Escaped(a) == Escaped(b)
    ensures a == b
  {
    EscapedReadsBack(a);
    EscapedReadsBack(b);
    assert |Codes(a)| == |Codes(b)|;
    forall i | 0 <= i < |a|
      ensures a[i] == b[i]
    {
      assert Codes(a)[i] == Codes(b)[i];
    }
  }

  /** Letters, digits, dot, underscore and hyphen, by code. */
  predicate Unreserved(c: char) {
    var n := c as int;
    0x41 <= n <= 0x5A || 0x61 <= n <= 0x7A || 0x30 <= n <= 0x39 || n == 0x2E || n == 0x5F || n == 0x2D
  }

  /** A token holds letters, digits and `._-+%`, so never the joiner. */
  predicate Safe(s: string) {
    forall i :: 0 <= i < |s| ==> Unreserved(s[i]) || s[i] == '+' || s[i] == '%'
  }

  lemma {:induction false} PercentIsSafe(bytes: seq<byte>)
    ensures Safe(Percent(bytes))
  {
    if bytes != [] {
      var b := bytes[|bytes| - 1];
      HexReadsBack(b / 16);
      HexReadsBack(b % 16);
      PercentIsSafe(bytes[..|bytes| - 1]);
    }
  }

  lemma {:induction false} EscapedIsSafe(part: string)
    ensures Safe(Escaped(part))
    ensures Escaped(part) == "" <==> part == ""
  {
    if part != "" {
      var c := part[|part| - 1];
      EscapedIsSafe(part[..|part| - 1]);
      PercentIsSafe(Utf8(c));
      PercentLength(Utf8(c));
    }
  }

  /** The three characters that spell byte `i`. */
  ghost predicate SpellsByte(s: string, i: nat, b: byte) {
    && 3 * i + 3 <= |s| && s[3 * i] == '%'
    && s[3 * i + 1] == "0123456789ABCDEF"[b / 16] && s[3 * i + 2] == "0123456789ABCDEF"[b % 16]
  }

  lemma HexDigits(d: int)
    requires 0 <= d < 16
    ensures Hex(d) == "0123456789ABCDEF"[d]
  {
  }

  lemma {:induction false} PercentSpells(bytes: seq<byte>, i: nat)
    requires i < |bytes|
    ensures |Percent(bytes)| == 3 * |bytes| && SpellsByte(Percent(bytes), i, bytes[i])
  {
    var front, b := bytes[..|bytes| - 1], bytes[|bytes| - 1];
    PercentLength(front);
    HexDigits(b / 16);
    HexDigits(b % 16);
    if i < |front| {
      PercentSpells(front, i);
    }
  }

  /**
   Wherever a character stands: a letter, digit or `._-` is kept, a slash becomes a plus, and
   anything else its bytes in upper-case percent notation.
   */
  lemma EscapedInPlainTerms(a: string, c: char, b: string, i: nat)
    ensures
      var mid := EscapedChar(c);
      && Escaped(a + [c] + b) == Escaped(a) + mid + Escaped(b)
      && (Unreserved(c) ==> mid == [c])
      && (c == '/' ==> mid == "+")
      && (!Unreserved(c) && c != '/' ==>
            |mid| == 3 * |Utf8(c)| && (i < |Utf8(c)| ==> SpellsByte(mid, i, Utf8(c)[i])))
  {
    var all := a + [c] + b;
    EscapedSplits(all, |a| + 1);
    assert all[..|a| + 1] == a + [c] && all[|a| + 1..] == b && (a + [c])[..|a|] == a;
    PercentLength(Utf8(c));
    if i < |Utf8(c)| {
      PercentSpells(Utf8(c), i);
    }
  }

  // --------------------------------------------------------------------- joining

  lemma SameFrontAndLast(a: seq<string>, b: seq<string>)
    requires a != [] && b != [] && a[..|a| - 1] == b[..|b| - 1] && a[|a| - 1] == b[|b| - 1]
    ensures a == b
  {
    assert |a| - 1 == |a[..|a| - 1]| && |b| - 1 == |b[..|b| - 1]|;
    assert a == a[..|a| - 1] + [a[|a| - 1]];
    assert b == b[..|b| - 1] + [b[|b| - 1]];
  }

  lemma JoinIsInjective(a: seq<string>, b: seq<string>)
    requires a != [] && forall i :: 0 <= i < |a| ==> Without(a[i], '~')
    requires b != [] && forall i :: 0 <= i < |b| ==> Without(b[i], '~')
    requires Joined(a, "~") == Joined(b, "~")
    ensures a == b
  {
    assert "~" == ['~'];
    PartingUndoesJoining(a, '~');
    PartingUndoesJoining(b, '~');
    SameFrontAndLast(a, b);
  }

  // ----------------------------------------------------------------- rows and tokens

  /** A row's identity; `tag` is the digest of its points and cargo. */
  datatype Row = Row(app: string, path: seq<string>, run: string, tag: string)

  /** The index of the first slash, or the length. */
  function Slash(run: string): (i: nat)
    ensures i <= |run| && forall k :: 0 <= k < i ==> run[k] != '/'
    ensures i < |run| ==> run[i] == '/'
  {
    if run == "" || run[0] == '/' then 0 else 1 + Slash(run[1..])
  }

  function Skill(run: string): string {
    run[..Slash(run)]
  }

  function Script(run: string): string {
    if Slash(run) < |run| then run[Slash(run) + 1..] else ""
  }

  /** `::` becomes a slash. */
  function ResolveNamespace(name: string): string {
    if |name| >= 2 && name[0] == ':' && name[1] == ':' then "/" + ResolveNamespace(name[2..])
    else if name == "" then ""
    else [name[0]] + ResolveNamespace(name[1..])
  }

  function RestoreNamespace(path: string): string {
    if path == "" then "" else (if path[0] == '/' then "::" else [path[0]]) + RestoreNamespace(path[1..])
  }

  lemma {:induction false} NamespaceReadsBack(name: string)
    requires '/' !in name
    ensures RestoreNamespace(ResolveNamespace(name)) == name
  {
    if |name| >= 2 && name[0] == ':' && name[1] == ':' {
      NamespaceReadsBack(name[2..]);
      assert name == "::" + name[2..];
      assert ("/" + ResolveNamespace(name[2..]))[1..] == ResolveNamespace(name[2..]);
    } else if name != "" {
      NamespaceReadsBack(name[1..]);
      assert name == [name[0]] + name[1..];
      assert name[0] in name;
    }
  }

  function EscapedEach(parts: seq<string>): seq<string> {
    seq(|parts|, i requires 0 <= i < |parts| => Escaped(parts[i]))
  }

  function Trail(path: seq<string>): string {
    if path == [] then "" else Trail(path[..|path| - 1]) + ("~" + Escaped(path[|path| - 1]))
  }

  function CheckLogToken(row: Row): string {
    var skill := Escaped(ResolveNamespace(Skill(row.run)));
    Escaped(row.app) + Trail(row.path) + "~" + skill + "~" + Escaped(Script(row.run)) + ("~" + row.tag)
  }

  function CheckLogName(event: string, row: Row): string {
    (if Escaped(event) == "" then "event" else Escaped(event)) + "~" + CheckLogToken(row) + ".log"
  }

  /** The components a token joins: one, any number, and three more. */
  function Assembled(head: string, middle: seq<string>, a: string, b: string, c: string): seq<string> {
    [head] + middle + [a] + [b] + [c]
  }

  function Parts(row: Row): seq<string> {
    Assembled(Escaped(row.app), EscapedEach(row.path),
              Escaped(ResolveNamespace(Skill(row.run))), Escaped(Script(row.run)), row.tag)
  }

  lemma EscapedEachSnoc(parts: seq<string>)
    requires parts != []
    ensures EscapedEach(parts) == EscapedEach(parts[..|parts| - 1]) + [Escaped(parts[|parts| - 1])]
  {
  }

  lemma JoinSnoc(parts: seq<string>, part: string)
    requires parts != []
    ensures Joined(parts + [part], "~") == Joined(parts, "~") + "~" + part
  {
    assert (parts + [part])[..|parts|] == parts;
  }

  lemma {:induction false} TrailJoins(head: string, path: seq<string>)
    ensures head + Trail(path) == Joined([head] + EscapedEach(path), "~")
  {
    if path == [] {
      assert [head] + EscapedEach(path) == [head] && head + "" == head;
    } else {
      var front, last := path[..|path| - 1], Escaped(path[|path| - 1]);
      TrailJoins(head, front);
      EscapedEachSnoc(path);
      assert [head] + EscapedEach(path) == [head] + EscapedEach(front) + [last];
      JoinSnoc([head] + EscapedEach(front), last);
      Assoc(head, Trail(front), "~" + last);
      Assoc(head + Trail(front), "~", last);
    }
  }

  lemma AssembledJoins(head: string, middle: seq<string>, a: string, b: string, c: string)
    ensures Joined(Assembled(head, middle, a, b, c), "~") ==
            Joined([head] + middle, "~") + "~" + a + "~" + b + ("~" + c)
  {
    var start := [head] + middle;
    JoinSnoc(start, a);
    JoinSnoc(start + [a], b);
    JoinSnoc(start + [a] + [b], c);
  }

  lemma TokenJoinsParts(row: Row)
    ensures CheckLogToken(row) == Joined(Parts(row), "~")
  {
    TrailJoins(Escaped(row.app), row.path);
    AssembledJoins(Escaped(row.app), EscapedEach(row.path),
                   Escaped(ResolveNamespace(Skill(row.run))), Escaped(Script(row.run)), row.tag);
  }

  lemma EscapedHasNoTilde(part: string)
    ensures Without(Escaped(part), '~')
  {
    EscapedIsSafe(part);
  }

  lemma PartsHaveNoTilde(row: Row)
    requires Without(row.tag, '~')
    ensures forall i :: 0 <= i < |Parts(row)| ==> Without(Parts(row)[i], '~')
  {
    EscapedHasNoTilde(row.app);
    EscapedHasNoTilde(ResolveNamespace(Skill(row.run)));
    EscapedHasNoTilde(Script(row.run));
    var middle := EscapedEach(row.path);
    forall i | 0 <= i < |middle|
      ensures Without(middle[i], '~')
    {
      EscapedHasNoTilde(row.path[i]);
    }
    AssembledHasNoTilde(Escaped(row.app), middle, Escaped(ResolveNamespace(Skill(row.run))), Escaped(Script(row.run)),
        row.tag);
  }

  lemma AssembledHasNoTilde(head: string, middle: seq<string>, a: string, b: string, c: string)
    requires Without(head, '~') && Without(a, '~') && Without(b, '~') && Without(c, '~')
    requires forall i :: 0 <= i < |middle| ==> Without(middle[i], '~')
    ensures
      var all := Assembled(head, middle, a, b, c);
      forall i :: 0 <= i < |all| ==> Without(all[i], '~')
  {
  }

  lemma AssembledIsInjective(h: string, m: seq<string>, a: string, b: string, c: string,
                             h': string, m': seq<string>, a': string, b': string, c': string)
    requires Assembled(h, m, a, b, c) == Assembled(h', m', a', b', c')
    ensures h == h' && m == m' && a == a' && b == b' && c == c'
  {
    var p, q := Assembled(h, m, a, b, c), Assembled(h', m', a', b', c');
    assert |p| == |m| + 4 && |q| == |m'| + 4;
    assert p[0] == h && q[0] == h' && p[|p| - 1] == c && q[|p| - 1] == c';
    assert p[|p| - 2] == b && q[|p| - 2] == b' && p[|p| - 3] == a && q[|p| - 3] == a';
    assert m == p[1..|p| - 3] && m' == q[1..|p| - 3];
  }

  lemma SamePath(a: seq<string>, b: seq<string>)
    requires EscapedEach(a) == EscapedEach(b)
    ensures a == b
  {
    assert |EscapedEach(a)| == |a| && |EscapedEach(b)| == |b|;
    forall i | 0 <= i < |a|
      ensures a[i] == b[i]
    {
      assert EscapedEach(a)[i] == EscapedEach(b)[i];
      EscapedIsInjective(a[i], b[i]);
    }
  }

  /** Two rows share a token exactly when app, path, skill, script and digest are the same. */
  lemma TokenTellsComponents(a: Row, b: Row)
    requires Without(a.tag, '~') && Without(b.tag, '~')
    ensures CheckLogToken(a) == CheckLogToken(b) <==>
              a.app == b.app && a.path == b.path && Skill(a.run) == Skill(b.run) && Script(a.run) == Script(b.run)
                  && a.tag == b.tag
  {
    if CheckLogToken(a) == CheckLogToken(b) {
      TokenJoinsParts(a);
      TokenJoinsParts(b);
      PartsHaveNoTilde(a);
      PartsHaveNoTilde(b);
      JoinIsInjective(Parts(a), Parts(b));
      AssembledIsInjective(
        Escaped(a.app), EscapedEach(a.path), Escaped(ResolveNamespace(Skill(a.run))), Escaped(Script(a.run)), a.tag,
        Escaped(b.app), EscapedEach(b.path), Escaped(ResolveNamespace(Skill(b.run))), Escaped(Script(b.run)), b.tag);
      EscapedIsInjective(a.app, b.app);
      SamePath(a.path, b.path);
      EscapedIsInjective(ResolveNamespace(Skill(a.run)), ResolveNamespace(Skill(b.run)));
      NamespaceReadsBack(Skill(a.run));
      NamespaceReadsBack(Skill(b.run));
      EscapedIsInjective(Script(a.run), Script(b.run));
    }
  }

  predicate HasSlash(run: string) {
    '/' in run
  }

  lemma SplitAt(s: string, i: nat)
    requires i < |s|
    ensures s == s[..i] + [s[i]] + s[i + 1..]
  {
  }

  lemma SlashFound(run: string)
    ensures Slash(run) < |run| <==> HasSlash(run)
    ensures HasSlash(run) ==> run == Skill(run) + ['/'] + Script(run)
    ensures !HasSlash(run) ==> run == Skill(run) && Script(run) == ""
  {
    var i := Slash(run);
    if i < |run| {
      SplitAt(run, i);
      assert run[i] == '/';
    } else {
      assert run[..i] == run;
    }
  }

  /** `b` is `a` with a slash behind it, and `a` has none. */
  predicate AddsSlash(a: string, b: string) {
    !HasSlash(a) && b == a + "/"
  }

  lemma AddedSlash(a: string, b: string)
    requires AddsSlash(a, b)
    ensures Skill(a) == Skill(b) && Script(a) == Script(b)
  {
    SlashFound(a);
    SlashFound(b);
    assert b[|a|] == '/';
    assert forall k :: 0 <= k < |a| ==> b[k] == a[k] && a[k] in a;
    assert Slash(b) == |a|;
    assert b[..|a|] == a && b[|a| + 1..] == "";
  }

  /** Two runs split alike exactly when they are equal or differ by one trailing slash behind a name without any. */
  lemma SameSplit(a: string, b: string)
    ensures Skill(a) == Skill(b) && Script(a) == Script(b) <==> a == b || AddsSlash(a, b) || AddsSlash(b, a)
  {
    SlashFound(a);
    SlashFound(b);
    if AddsSlash(a, b) {
      AddedSlash(a, b);
    } else if AddsSlash(b, a) {
      AddedSlash(b, a);
    }
  }

  /** Rows that differ share a token exactly when their runs differ by such a slash and all else is the same. */
  lemma SlashlessRunsCollide(a: Row, b: Row)
    requires Without(a.tag, '~') && Without(b.tag, '~') && a != b
    ensures CheckLogToken(a) == CheckLogToken(b) <==>
              a.app == b.app && a.path == b.path && a.tag == b.tag
                  && (AddsSlash(a.run, b.run) || AddsSlash(b.run, a.run))
  {
    TokenTellsComponents(a, b);
    SameSplit(a.run, b.run);
  }

  /** Resolution lets only runs with a slash through: among those a token tells the row, up to the digest. */
  lemma TokenIsInjective(a: Row, b: Row)
    requires Without(a.tag, '~') && Without(b.tag, '~') && HasSlash(a.run) && HasSlash(b.run)
    ensures CheckLogToken(a) == CheckLogToken(b) <==> a == b
  {
    TokenTellsComponents(a, b);
    SameSplit(a.run, b.run);
  }

  /** The empty event is logged as `event`. */
  function LoggedEvent(event: string): string {
    if event == "" then "event" else event
  }

  function FirstTilde(s: string): nat {
    if s == "" || s[0] == '~' then 0 else 1 + FirstTilde(s[1..])
  }

  lemma {:induction false} FirstTildeIsJoiner(head: string, tail: string)
    requires Without(head, '~')
    ensures FirstTilde(head + "~" + tail) == |head|
  {
    var all := head + "~" + tail;
    if head == "" {
      assert all[0] == '~';
    } else {
      assert all[0] == head[0] && all[1..] == head[1..] + "~" + tail;
      FirstTildeIsJoiner(head[1..], tail);
    }
  }

  lemma HeadOfJoin(head: string, tail: string, head': string, tail': string)
    requires Without(head, '~') && Without(head', '~') && head + "~" + tail == head' + "~" + tail'
    ensures head == head' && tail == tail'
  {
    FirstTildeIsJoiner(head, tail);
    FirstTildeIsJoiner(head', tail');
    var all := head + "~" + tail;
    assert all[..|head|] == head && all[|head| + 1..] == tail;
    assert all == head' + "~" + tail' && all[..|head|] == head' && all[|head| + 1..] == tail';
  }

  lemma UnreservedIsKept(c: char)
    requires Unreserved(c)
    ensures EscapedChar(c) == [c]
  {
  }

  lemma {:induction false} LiteralsEscapeToThemselves(s: string)
    requires forall i :: 0 <= i < |s| ==> Unreserved(s[i])
    ensures Escaped(s) == s
  {
    if s != "" {
      var front, c := s[..|s| - 1], s[|s| - 1];
      LiteralsEscapeToThemselves(front);
      UnreservedIsKept(c);
      assert s == front + [c];
    }
  }

  lemma NameStartsWithEvent(event: string, row: Row)
    ensures CheckLogName(event, row) == Escaped(LoggedEvent(event)) + "~" + CheckLogToken(row) + ".log"
  {
    EscapedIsSafe(event);
    var word := "event";
    assert word[0] == 'e' && word[1] == 'v' && word[2] == 'e' && word[3] == 'n' && word[4] == 't';
    LiteralsEscapeToThemselves(word);
  }

  /** The empty event is logged as one that is called `event`. */
  predicate SameEvent(e: string, f: string) {
    e == f || (e == "" && f == "event") || (e == "event" && f == "")
  }

  /** Two firings share a log file exactly when they share the event, the empty one being `event`, and the token. */
  lemma NameTellsEventAndToken(e: string, a: Row, f: string, b: Row)
    ensures CheckLogName(e, a) == CheckLogName(f, b) <==>
              SameEvent(e, f) && CheckLogToken(a) == CheckLogToken(b)
  {
    NameStartsWithEvent(e, a);
    NameStartsWithEvent(f, b);
    if CheckLogName(e, a) == CheckLogName(f, b) {
      var head, head' := Escaped(LoggedEvent(e)), Escaped(LoggedEvent(f));
      EscapedHasNoTilde(LoggedEvent(e));
      EscapedHasNoTilde(LoggedEvent(f));
      assert CheckLogName(e, a)[..|CheckLogName(e, a)| - 4] == head + "~" + CheckLogToken(a);
      assert CheckLogName(f, b)[..|CheckLogName(f, b)| - 4] == head' + "~" + CheckLogToken(b);
      HeadOfJoin(head, CheckLogToken(a), head', CheckLogToken(b));
      EscapedIsInjective(LoggedEvent(e), LoggedEvent(f));
    }
  }

  /** So, among the rows that resolution lets through, exactly when event and row are the same. */
  lemma NameIsInjective(e: string, a: Row, f: string, b: Row)
    requires Without(a.tag, '~') && Without(b.tag, '~') && HasSlash(a.run) && HasSlash(b.run)
    ensures CheckLogName(e, a) == CheckLogName(f, b) <==> SameEvent(e, f) && a == b
  {
    NameTellsEventAndToken(e, a, f, b);
    TokenIsInjective(a, b);
  }
}
