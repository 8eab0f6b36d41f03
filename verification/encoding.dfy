/** UTF-8, section 3 of RFC 3629. */
module Encoding {
  import opened Lists

  type byte = b: int | 0 <= b < 256

  function Utf8(c: char): (bytes: seq<byte>)
    ensures 1 <= |bytes| <= 4
  {
    var n := c as int;
    if n < 0x80 then [n]
    else if n < 0x800 then [0xC0 + n / 0x40, 0x80 + n % 0x40]
    else if n < 0x1_0000 then [0xE0 + n / 0x1000, 0x80 + n / 0x40 % 0x40, 0x80 + n % 0x40]
    else [0xF0 + n / 0x4_0000, 0x80 + n / 0x1000 % 0x40, 0x80 + n / 0x40 % 0x40, 0x80 + n % 0x40]
  }

  /** How many bytes the character takes whose first byte is `lead`. */
  function Width(lead: int): nat {
    if lead < 0xC0 then 1 else if lead < 0xE0 then 2 else if lead < 0xF0 then 3 else 4
  }

  /** The number that UTF-8 bytes spell. */
  function FromUtf8(b: seq<byte>): int
    requires b != [] && Width(b[0]) <= |b|
  {
    var b0: int := b[0];
    var w := Width(b0);
    if w == 1 then b0
    else
      var b1: int := b[1];
      if w == 2 then (b0 - 0xC0) * 0x40 + (b1 - 0x80)
      else
        var b2: int := b[2];
        if w == 3 then (b0 - 0xE0) * 0x1000 + (b1 - 0x80) * 0x40 + (b2 - 0x80)
        else
          var b3: int := b[3];
          (b0 - 0xF0) * 0x4_0000 + (b1 - 0x80) * 0x1000 + (b2 - 0x80) * 0x40 + (b3 - 0x80)
  }

  /** A character reads back, and its first byte tells how many there are. */
  lemma Utf8ReadsBack(c: char)
    ensures Width(Utf8(c)[0]) == |Utf8(c)|
    ensures FromUtf8(Utf8(c)) == c as int
  {
    var n := c as int;
    var a, b := n / 0x40, n / 0x1000;
    assert n == a * 0x40 + n % 0x40;
    assert b == a / 0x40 && a == b * 0x40 + a % 0x40;
    assert n / 0x4_0000 == b / 0x40 && b == b / 0x40 * 0x40 + b % 0x40;
  }

  /** The bytes below 0x80 are those of the characters below 0x80. */
  lemma Utf8KeepsAscii(c: char, i: nat)
    requires i < |Utf8(c)| && Utf8(c)[i] < 0x80
    ensures Utf8(c) == [c as int]
  {
  }

  function EncodeText(text: string): seq<byte> {
    if text == "" then [] else EncodeText(text[..|text| - 1]) + Utf8(text[|text| - 1])
  }

  function Codes(text: string): seq<int> {
    seq(|text|, i requires 0 <= i < |text| => text[i] as int)
  }

  /** The numbers that a row of bytes spells; what is cut off at the end stands for itself. */
  function Decoded(bytes: seq<byte>): seq<int> {
    if bytes == [] then []
    else if Width(bytes[0]) > |bytes| then [bytes[0] as int] + Decoded(bytes[1..])
    else [FromUtf8(bytes)] + Decoded(bytes[Width(bytes[0])..])
  }

  lemma DecodedStep(c: char, rest: seq<byte>)
    ensures Decoded(Utf8(c) + rest) == [c as int] + Decoded(rest)
  {
    var all := Utf8(c) + rest;
    Utf8ReadsBack(c);
    assert all[|Utf8(c)|..] == rest;
    assert forall i :: 0 <= i < |Utf8(c)| ==> all[i] == Utf8(c)[i];
    assert FromUtf8(all) == FromUtf8(Utf8(c));
  }

  lemma CodesSnoc(text: string)
    requires text != ""
    ensures Codes(text) == Codes(text[..|text| - 1]) + [text[|text| - 1] as int]
  {
  }

  /** Round trip: an encoded text decodes to its characters, whatever follows it. */
  lemma {:induction false} TextReadsBack(text: string, rest: seq<byte>)
    ensures Decoded(EncodeText(text) + rest) == Codes(text) + Decoded(rest)
  {
    if text == "" {
      assert EncodeText(text) + rest == rest && Codes(text) + Decoded(rest) == Decoded(rest);
    } else {
      var front, c := text[..|text| - 1], text[|text| - 1];
      calc {
        Decoded(EncodeText(text) + rest);
        { Assoc(EncodeText(front), Utf8(c), rest); }
        Decoded(EncodeText(front) + (Utf8(c) + rest));
        { TextReadsBack(front, Utf8(c) + rest); }
        Codes(front) + Decoded(Utf8(c) + rest);
        { DecodedStep(c, rest); }
        Codes(front) + ([c as int] + Decoded(rest));
        { Assoc(Codes(front), [c as int], Decoded(rest)); CodesSnoc(text); }
        Codes(text) + Decoded(rest);
      }
    }
  }
}
