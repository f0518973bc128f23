/** The two places where the text pipeline converts between bytes and text:
    `String(bytes: [byte], encoding: .utf8)` on one byte at a time, and
    `jsonString.data(using: .utf8)` on a whole frame. The encoding is UTF-8 as
    defined in section 3 of RFC 3629. */
module Utf8 {
  import opened Common

  /** The length of the UTF-8 sequence that a byte starts (section 4 of RFC
      3629), or 0 for a byte that cannot start one: a continuation byte
      10xxxxxx, the overlong leads 0xC0 and 0xC1, and 0xF5 to 0xFF. */
  function SequenceLength(lead: byte): (n: nat)
    ensures n <= 4
  {
    if lead < 0x80 then 1
    else if 0xC2 <= lead < 0xE0 then 2
    else if 0xE0 <= lead < 0xF0 then 3
    else if 0xF0 <= lead < 0xF5 then 4
    else 0
  }

  predicate IsContinuation(b: byte) {
    0x80 <= b < 0xC0
  }

  /** `String(bytes: [b], encoding: .utf8)`: one byte decodes on its own
      exactly when it is a whole UTF-8 sequence, and then it is the character
      with that code. */
  function DecodeLoneByte(b: byte): (r: Option<char>)
    ensures r.Some? <==> SequenceLength(b) == 1
    ensures r.Some? ==> r.value as int == b as int
  {
    if b < 0x80 then Some((b as int) as char) else None
  }

  /** The UTF-8 encoding of one Unicode scalar value. */
  function EncodeChar(c: char): (bytes: seq<byte>)
    ensures 1 <= |bytes| <= 4
  {
    var v := c as int;
    if v < 0x80 then
      [v as byte]
    else if v < 0x800 then
      [(0xC0 + v / 0x40) as byte, (0x80 + v % 0x40) as byte]
    else if v < 0x1_0000 then
      [(0xE0 + v / 0x1000) as byte, (0x80 + v / 0x40 % 0x40) as byte, (0x80 + v % 0x40) as byte]
    else
      [(0xF0 + v / 0x4_0000) as byte, (0x80 + v / 0x1000 % 0x40) as byte,
       (0x80 + v / 0x40 % 0x40) as byte, (0x80 + v % 0x40) as byte]
  }

  /** The encoding of a character is one well-formed UTF-8 sequence: its
      first byte announces its length and the others are continuation
      bytes; a character below 0x80 is the one byte with its code. */
  lemma EncodeCharWellFormed(c: char)
    ensures SequenceLength(EncodeChar(c)[0]) == |EncodeChar(c)|
    ensures forall i :: 1 <= i < |EncodeChar(c)| ==> IsContinuation(EncodeChar(c)[i])
    ensures (c as int < 0x80) == (|EncodeChar(c)| == 1)
    ensures c as int < 0x80 ==> EncodeChar(c) == [(c as int) as byte]
  {
  }

  /** `s.data(using: .utf8)`: the characters' encodings, in order. */
  function Encode(s: string): (bytes: seq<byte>)
    ensures |bytes| >= |s|
  {
    if s == [] then [] else Encode(s[..|s| - 1]) + EncodeChar(s[|s| - 1])
  }

  lemma EncodeSnoc(s: string, c: char)
    ensures Encode(s + [c]) == Encode(s) + EncodeChar(c)
  {
    assert (s + [c])[..|s|] == s;
  }

  lemma {:induction false} EncodeAppend(s: string, t: string)
    ensures Encode(s + t) == Encode(s) + Encode(t)
    decreases |t|
  {
    if t == [] {
      assert s + t == s;
    } else {
      var init, last := t[..|t| - 1], t[|t| - 1];
      assert t == init + [last];
      assert s + t == (s + init) + [last];
      var a, b, c := Encode(s), Encode(init), EncodeChar(last);
      calc {
        Encode(s + t);
        { EncodeSnoc(s + init, last); }
        Encode(s + init) + c;
        { EncodeAppend(s, init); }
        (a + b) + c;
        a + (b + c);
        { EncodeSnoc(init, last); }
        a + Encode(t);
      }
    }
  }

  predicate IsAscii(s: string) {
    forall i :: 0 <= i < |s| ==> s[i] as int < 0x80
  }

  /** Text made of ASCII characters encodes to one byte per character, each
      with the character's code, and every such byte decodes on its own back
      to that character. */
  lemma {:induction false} EncodeAscii(s: string)
    requires IsAscii(s)
    ensures |Encode(s)| == |s|
    ensures forall i :: 0 <= i < |s| ==> Encode(s)[i] as int == s[i] as int
    ensures forall i :: 0 <= i < |s| ==> DecodeLoneByte(Encode(s)[i]) == Some(s[i])
    decreases |s|
  {
    if s != [] {
      EncodeAscii(s[..|s| - 1]);
    }
  }

  /** An ASCII character absent from an ASCII text is absent, as a byte, from
      its encoding. */
  lemma EncodeAsciiAvoids(s: string, c: char)
    requires IsAscii(s) && c as int < 0x80 && c !in s
    ensures (c as int) as byte !in Encode(s)
  {
    EncodeAscii(s);
    forall i | 0 <= i < |Encode(s)|
      ensures Encode(s)[i] != (c as int) as byte
    {
      assert s[i] != c;
    }
  }

  /** Encoding keeps apart the ASCII texts it is given: one is a prefix of, or
      equal to, another exactly when their encodings are. */
  lemma EncodeAsciiInjective(a: string, b: string)
    requires IsAscii(a) && IsAscii(b)
    ensures Encode(a) <= Encode(b) <==> a <= b
    ensures Encode(a) == Encode(b) <==> a == b
  {
    EncodeAscii(a);
    EncodeAscii(b);
    if Encode(a) <= Encode(b) {
      assert forall i :: 0 <= i < |a| ==> a[i] as int == b[i] as int;
    }
  }
}
