/**
 * UTF-8 as defined in RFC 3629 (section 4 gives the byte-sequence syntax),
 * which is what Python's strict `bytes.decode()` accepts: no overlong forms,
 * no surrogates, nothing above U+10FFFF. A `char` is one Unicode scalar value.
 */
module Utf8 {
  import opened Arith
  import opened Bytes
  import opened Wrappers

  /** UTF8-tail = %x80-BF */
  predicate IsTail(b: Byte)
  {
    0x80 <= b <= 0xBF
  }

  /** The range RFC 3629 allows for the second byte of a three-byte sequence. */
  predicate SecondOf3(b0: Byte, b1: Byte)
  {
    (if b0 == 0xE0 then 0xA0 else 0x80) <= b1 <= (if b0 == 0xED then 0x9F else 0xBF)
  }

  /** The range RFC 3629 allows for the second byte of a four-byte sequence. */
  predicate SecondOf4(b0: Byte, b1: Byte)
  {
    (if b0 == 0xF0 then 0x90 else 0x80) <= b1 <= (if b0 == 0xF4 then 0x8F else 0xBF)
  }

  /** The UTF-8 form of one character, in the shortest of the four lengths. */
  function EncodeChar(c: char): (r: seq<Byte>)
    ensures 1 <= |r| <= 4
  {
    var cp := c as int;
    if cp < 0x80 then [cp]
    else if cp < 0x800 then [0xC0 + cp / 64, 0x80 + cp % 64]
    else if cp < 0x10000 then [0xE0 + cp / 4096, 0x80 + (cp / 64) % 64, 0x80 + cp % 64]
    else [0xF0 + cp / 0x40000, 0x80 + (cp / 4096) % 64, 0x80 + (cp / 64) % 64, 0x80 + cp % 64]
  }

  function Encode(cs: seq<char>): (r: seq<Byte>)
    ensures |r| >= |cs|
  {
    if cs == [] then [] else EncodeChar(cs[0]) + Encode(cs[1..])
  }

  /** The code point of a two-byte sequence. */
  function Cp2(b0: int, b1: int): int { (b0 - 0xC0) * 64 + (b1 - 0x80) }

  /** The code point of a three-byte sequence. */
  function Cp3(b0: int, b1: int, b2: int): int { (b0 - 0xE0) * 4096 + (b1 - 0x80) * 64 + (b2 - 0x80) }

  /** The code point of a four-byte sequence. */
  function Cp4(b0: int, b1: int, b2: int, b3: int): int
  {
    (b0 - 0xF0) * 0x40000 + (b1 - 0x80) * 4096 + (b2 - 0x80) * 64 + (b3 - 0x80)
  }

  /** The first character of s and the number of bytes it takes, or None if s does not start with a valid one. */
  function DecodeFirst(s: seq<Byte>): (r: Option<(char, nat)>)
    requires |s| > 0
    ensures r.Some? ==> 1 <= r.value.1 <= |s|
  {
    var b0 := s[0];
    if b0 < 0x80 then Some((b0 as char, 1))
    else if 0xC2 <= b0 <= 0xDF then
      if |s| >= 2 && IsTail(s[1]) then Some((Cp2(b0, s[1]) as char, 2)) else None
    else if 0xE0 <= b0 <= 0xEF then
      if |s| >= 3 && SecondOf3(b0, s[1]) && IsTail(s[2]) then Some((Cp3(b0, s[1], s[2]) as char, 3)) else None
    else if 0xF0 <= b0 <= 0xF4 then
      if |s| >= 4 && SecondOf4(b0, s[1]) && IsTail(s[2]) && IsTail(s[3]) then
        Some((Cp4(b0, s[1], s[2], s[3]) as char, 4))
      else None
    else None
  }

  /** `bytes.decode()`: the characters of s, or None where Python raises UnicodeDecodeError. */
  function Decode(s: seq<Byte>): Option<seq<char>>
    decreases |s|
  {
    if s == [] then Some([])
    else
      match DecodeFirst(s)
      case None => None
      case Some((c, n)) =>
        match Decode(s[n..])
        case None => None
        case Some(cs) => Some([c] + cs)
  }

  /** The six-bit groups of a code point, as `EncodeChar` takes them apart. */
  lemma SixBitGroups(cp: nat)
    ensures cp == 64 * (cp / 64) + cp % 64
    ensures cp / 64 == 64 * (cp / 4096) + (cp / 64) % 64
    ensures cp / 4096 == 64 * (cp / 0x40000) + (cp / 4096) % 64
  {
    DivDiv(cp, 64, 64);
    DivDiv(cp, 4096, 64);
  }

  /** A character's encoding, whatever follows it, decodes to that character. */
  lemma DecodeFirstOfEncodeChar(c: char, rest: seq<Byte>)
    ensures DecodeFirst(EncodeChar(c) + rest) == Some((c, |EncodeChar(c)|))
  {
    var cp, s := c as int, EncodeChar(c) + rest;
    SixBitGroups(cp);
    if cp < 0x80 {
    } else if cp < 0x800 {
      assert Cp2(s[0], s[1]) == cp;
    } else if cp < 0x10000 {
      assert Cp3(s[0], s[1], s[2]) == cp;
      assert SecondOf3(s[0], s[1]);
    } else {
      assert Cp4(s[0], s[1], s[2], s[3]) == cp;
      assert SecondOf4(s[0], s[1]);
    }
  }

  /** A character decoded from the front of s is encoded by exactly the bytes it took. */
  lemma EncodeCharOfDecodeFirst(s: seq<Byte>)
    requires |s| > 0 && DecodeFirst(s).Some?
    ensures EncodeChar(DecodeFirst(s).value.0) == s[..DecodeFirst(s).value.1]
  {
    var b0: int := s[0];
    if 0xC2 <= b0 <= 0xDF {
      EncodeTwo(s);
    } else if 0xE0 <= b0 <= 0xEF {
      EncodeThree(s);
    } else if 0xF0 <= b0 <= 0xF4 {
      EncodeFour(s);
    }
  }

  lemma EncodeTwo(s: seq<Byte>)
    requires |s| >= 2 && 0xC2 <= s[0] <= 0xDF && IsTail(s[1])
    ensures EncodeChar(Cp2(s[0], s[1]) as char) == s[..2]
  {
    var b0: int, b1: int := s[0], s[1];
    DivUnique(Cp2(b0, b1), 64, b0 - 0xC0, b1 - 0x80);
  }

  lemma EncodeThree(s: seq<Byte>)
    requires |s| >= 3 && 0xE0 <= s[0] <= 0xEF && SecondOf3(s[0], s[1]) && IsTail(s[2])
    ensures EncodeChar(Cp3(s[0], s[1], s[2]) as char) == s[..3]
  {
    var b0: int, b1: int, b2: int := s[0], s[1], s[2];
    var cp := Cp3(b0, b1, b2);
    var hi := (b0 - 0xE0) * 64 + (b1 - 0x80);
    DivUnique(cp, 64, hi, b2 - 0x80);
    DivUnique(hi, 64, b0 - 0xE0, b1 - 0x80);
    DivDiv(cp, 64, 64);
  }

  lemma EncodeFour(s: seq<Byte>)
    requires |s| >= 4 && 0xF0 <= s[0] <= 0xF4 && SecondOf4(s[0], s[1]) && IsTail(s[2]) && IsTail(s[3])
    ensures EncodeChar(Cp4(s[0], s[1], s[2], s[3]) as char) == s[..4]
  {
    var b0: int, b1: int, b2: int, b3: int := s[0], s[1], s[2], s[3];
    var cp := Cp4(b0, b1, b2, b3);
    var hi := (b0 - 0xF0) * 64 + (b1 - 0x80);
    var mid := hi * 64 + (b2 - 0x80);
    DivUnique(cp, 64, mid, b3 - 0x80);
    DivUnique(mid, 64, hi, b2 - 0x80);
    DivUnique(hi, 64, b0 - 0xF0, b1 - 0x80);
    DivDiv(cp, 64, 64);
    DivDiv(cp, 4096, 64);
  }

  /** Decoding an encoded string gives the string back. */
  lemma {:induction false} DecodeEncode(cs: seq<char>)
    ensures Decode(Encode(cs)) == Some(cs)
  {
    if cs != [] {
      var e := Encode(cs);
      DecodeFirstOfEncodeChar(cs[0], Encode(cs[1..]));
      assert e[|EncodeChar(cs[0])|..] == Encode(cs[1..]);
      DecodeEncode(cs[1..]);
      assert [cs[0]] + cs[1..] == cs;
    }
  }

  /** Bytes that decode are the encoding of what they decode to: the encoding is unique. */
  lemma {:induction false} EncodeDecode(s: seq<Byte>)
    requires Decode(s).Some?
    ensures Encode(Decode(s).value) == s
    decreases |s|
  {
    if s != [] {
      var c, n := DecodeFirst(s).value.0, DecodeFirst(s).value.1;
      DecodeStep(s);
      EncodeCharOfDecodeFirst(s);
      EncodeDecode(s[n..]);
      EncodeJoin(s, n, c, Decode(s).value, Decode(s[n..]).value);
    }
  }

  /** A character encoded by the first n bytes, followed by characters encoded by the rest, is encoded by all of s. */
  lemma EncodeJoin(s: seq<Byte>, n: nat, c: char, cs: seq<char>, rest: seq<char>)
    requires n <= |s| && EncodeChar(c) == s[..n] && Encode(rest) == s[n..] && cs == [c] + rest
    ensures Encode(cs) == s
  {
    EncodeCons(c, rest);
    assert s[..n] + s[n..] == s;
  }

  /** A nonempty string that decodes is its first character followed by the decoding of the rest. */
  lemma DecodeStep(s: seq<Byte>)
    requires s != [] && Decode(s).Some?
    ensures DecodeFirst(s).Some?
    ensures var n := DecodeFirst(s).value.1;
      Decode(s[n..]).Some? && Decode(s).value == [DecodeFirst(s).value.0] + Decode(s[n..]).value
  {
  }

  lemma EncodeCons(c: char, cs: seq<char>)
    ensures Encode([c] + cs) == EncodeChar(c) + Encode(cs)
  {
    assert ([c] + cs)[1..] == cs;
  }

  /** 0xFF never occurs in UTF-8; 0xEF occurs exactly in the encodings of U+F000 to U+FFFF. */
  lemma EncodeCharBytes(c: char)
    ensures 0xFF !in EncodeChar(c)
    ensures 0xEF in EncodeChar(c) <==> 0xF000 <= c as int <= 0xFFFF
  {
  }
}
