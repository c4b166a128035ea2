/** capitalize and decapitalize on the bytes of a Go string.  A Go string
    holds UTF-8 bytes; both functions take the first character, map its
    case, and append the rest of the string sliced from byte index 1 on,
    not from the end of that first character. */
module Utf8 {
  import opened Text
  import opened CaseConvert

  newtype byte = b: int | 0 <= b < 0x100

  /** A byte that only ever continues a multi-byte character. */
  predicate IsContinuation(b: byte)
  {
    0x80 <= b < 0xC0
  }

  /** The UTF-8 encoding of one character: a leading byte, then one
      continuation byte per six further bits. */
  function EncodeRune(c: char): (r: seq<byte>)
    ensures 1 <= |r| <= 4
    ensures |r| == 1 <==> (c as int) < 0x80
    ensures !IsContinuation(r[0])
    ensures forall i :: 1 <= i < |r| ==> IsContinuation(r[i])
  {
    var n := c as int;
    if n < 0x80 then [n as byte]
    else if n < 0x800 then [(0xC0 + n / 0x40) as byte, (0x80 + n % 0x40) as byte]
    else if n < 0x1_0000 then
      [(0xE0 + n / 0x1000) as byte, (0x80 + n / 0x40 % 0x40) as byte, (0x80 + n % 0x40) as byte]
    else
      [(0xF0 + n / 0x4_0000) as byte, (0x80 + n / 0x1000 % 0x40) as byte,
       (0x80 + n / 0x40 % 0x40) as byte, (0x80 + n % 0x40) as byte]
  }

  /** The UTF-8 bytes of a string. */
  function Encode(s: string): (r: seq<byte>)
    ensures |r| >= |s|
  {
    if s == [] then [] else EncodeRune(s[0]) + Encode(s[1..])
  }

  /** capitalize (f = upper case) and decapitalize (f = lower case) as
      written: the mapped first character, then the string's bytes from
      index 1 on. */
  function FirstRuneAsWritten(s: string, f: char -> char): seq<byte>
  {
    if s == [] then [] else EncodeRune(f(s[0])) + Encode(s)[1..]
  }

  /** The same with the slice taken after the whole first character. */
  function FirstRune(s: string, f: char -> char): seq<byte>
  {
    if s == [] then [] else EncodeRune(f(s[0])) + Encode(s)[|EncodeRune(s[0])|..]
  }

  /** The corrected slice encodes the string with its first character
      mapped and every other character kept. */
  lemma FirstRuneEncodes(s: string, f: char -> char)
    ensures s == [] ==> FirstRune(s, f) == []
    ensures s != [] ==> FirstRune(s, f) == Encode([f(s[0])] + s[1..])
  {
    if s != [] {
      var t := [f(s[0])] + s[1..];
      assert t[0] == f(s[0]) && t[1..] == s[1..];
    }
  }

  /** The code-point capitalize and decapitalize of the model are exactly
      the corrected byte functions. */
  lemma CaseMappingEncodes(s: string)
    ensures FirstRune(s, UpperChar) == Encode(Capitalize(s))
    ensures FirstRune(s, LowerChar) == Encode(Decapitalize(s))
  {
    FirstRuneEncodes(s, UpperChar);
    FirstRuneEncodes(s, LowerChar);
  }

  /** As written, the result is right exactly when the first character is
      ASCII; otherwise it is longer by the first character's continuation
      bytes, and the first of them follows the mapped character, where no
      valid encoding has a continuation byte. */
  lemma AsWrittenKeepsTail(s: string, f: char -> char)
    requires s != []
    ensures FirstRuneAsWritten(s, f) == FirstRune(s, f) <==> (s[0] as int) < 0x80
    ensures |FirstRuneAsWritten(s, f)| == |FirstRune(s, f)| + |EncodeRune(s[0])| - 1
    ensures (s[0] as int) >= 0x80 ==>
      IsContinuation(FirstRuneAsWritten(s, f)[|EncodeRune(f(s[0]))|])
  {
    var head, rest := EncodeRune(s[0]), Encode(s[1..]);
    var mapped := EncodeRune(f(s[0]));
    assert Encode(s) == head + rest;
    assert Encode(s)[1..] == head[1..] + rest;
    assert Encode(s)[|head|..] == rest;
    assert FirstRuneAsWritten(s, f) == mapped + (head[1..] + rest);
    assert FirstRune(s, f) == mapped + rest;
    if (s[0] as int) >= 0x80 {
      assert FirstRuneAsWritten(s, f)[|mapped|] == head[1];
    }
  }

  /** A character without case: "日" is E6 97 A5, and capitalize as written
      returns E6 97 A5 97 A5. */
  lemma CaselessExample()
    ensures Encode("\U{65E5}") == [0xE6, 0x97, 0xA5]
    ensures FirstRuneAsWritten("\U{65E5}", UpperChar) == [0xE6, 0x97, 0xA5, 0x97, 0xA5]
    ensures FirstRune("\U{65E5}", UpperChar) == [0xE6, 0x97, 0xA5]
  {
    var s := "\U{65E5}";
    assert s[1..] == [];
    assert EncodeRune(s[0]) == [0xE6, 0x97, 0xA5];
    assert UpperChar(s[0]) == s[0];
  }
}
