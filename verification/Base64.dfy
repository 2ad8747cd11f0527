// Unpadded base64 with the standard alphabet (sections 3.2 and 4 of RFC 4648), as the cursor
// strings use it. The decoder skips line breaks and ignores the unused low bits of a final group.
module Base64 {
  import opened Wrappers
  import opened Varint

  type sextet = x: int | 0 <= x < 64

  function Letter(x: sextet): char {
    if x < 26 then ('A' as int + x) as char
    else if x < 52 then ('a' as int + x - 26) as char
    else if x < 62 then ('0' as int + x - 52) as char
    else if x == 62 then '+'
    else '/'
  }

  function Digit(c: char): Option<sextet> {
    if 'A' <= c <= 'Z' then Some(c as int - 'A' as int)
    else if 'a' <= c <= 'z' then Some(c as int - 'a' as int + 26)
    else if '0' <= c <= '9' then Some(c as int - '0' as int + 52)
    else if c == '+' then Some(62)
    else if c == '/' then Some(63)
    else None
  }

  lemma DigitOfLetter(x: sextet)
    ensures Digit(Letter(x)) == Some(x)
  {
  }

  function Encode(bs: seq<byte>): string {
    if |bs| == 0 then ""
    else if |bs| == 1 then
      [Letter(bs[0] / 4), Letter(bs[0] % 4 * 16)]
    else if |bs| == 2 then
      [Letter(bs[0] / 4), Letter(bs[0] % 4 * 16 + bs[1] / 16), Letter(bs[1] % 16 * 4)]
    else
      [Letter(bs[0] / 4), Letter(bs[0] % 4 * 16 + bs[1] / 16),
       Letter(bs[1] % 16 * 4 + bs[2] / 64), Letter(bs[2] % 64)] + Encode(bs[3..])
  }

  predicate IsLineBreak(c: char) {
    c == '\n' || c == '\r'
  }

  /** The six-bit values of the letters of `s`, or nothing when one is outside the alphabet. */
  function Digits(s: string): Option<seq<sextet>> {
    if s == "" then Some([])
    else if IsLineBreak(s[0]) then Digits(s[1..])
    else
      match Digit(s[0])
      case None => None
      case Some(d) =>
        match Digits(s[1..])
        case None => None
        case Some(ds) => Some([d] + ds)
  }

  function FirstByte(d0: sextet, d1: sextet): byte {
    d0 * 4 + d1 / 16
  }

  function SecondByte(d1: sextet, d2: sextet): byte {
    d1 % 16 * 16 + d2 / 4
  }

  function ThirdByte(d2: sextet, d3: sextet): byte {
    d2 % 4 * 64 + d3
  }

  /** Four letters carry three bytes; a tail of two or three letters carries one or two. */
  function Regroup(ds: seq<sextet>): Option<seq<byte>> {
    if |ds| == 0 then Some([])
    else if |ds| == 1 then None
    else if |ds| == 2 then Some([FirstByte(ds[0], ds[1])])
    else if |ds| == 3 then Some([FirstByte(ds[0], ds[1]), SecondByte(ds[1], ds[2])])
    else
      match Regroup(ds[4..])
      case None => None
      case Some(tail) =>
        Some([FirstByte(ds[0], ds[1]), SecondByte(ds[1], ds[2]), ThirdByte(ds[2], ds[3])] + tail)
  }

  function Decode(s: string): Option<seq<byte>> {
    match Digits(s)
    case None => None
    case Some(ds) => Regroup(ds)
  }

  /** The letters of `Encode(bs)` before they are spelled out. */
  ghost function Sextets(bs: seq<byte>): seq<sextet> {
    if |bs| == 0 then []
    else if |bs| == 1 then OneByte(bs[0])
    else if |bs| == 2 then TwoBytes(bs[0], bs[1])
    else ThreeBytes(bs[0], bs[1], bs[2]) + Sextets(bs[3..])
  }

  ghost function OneByte(b0: byte): seq<sextet> {
    [b0 / 4, b0 % 4 * 16]
  }

  ghost function TwoBytes(b0: byte, b1: byte): seq<sextet> {
    [b0 / 4, b0 % 4 * 16 + b1 / 16, b1 % 16 * 4]
  }

  ghost function ThreeBytes(b0: byte, b1: byte, b2: byte): seq<sextet> {
    [b0 / 4, b0 % 4 * 16 + b1 / 16, b1 % 16 * 4 + b2 / 64, b2 % 64]
  }

  ghost function Spell(ds: seq<sextet>): string {
    seq(|ds|, i requires 0 <= i < |ds| => Letter(ds[i]))
  }

  lemma {:induction false} DigitsOfSpell(ds: seq<sextet>)
    ensures Digits(Spell(ds)) == Some(ds)
  {
    if ds == [] {
    } else {
      DigitOfLetter(ds[0]);
      assert !IsLineBreak(Letter(ds[0]));
      assert Spell(ds)[1..] == Spell(ds[1..]);
      DigitsOfSpell(ds[1..]);
      assert ds == [ds[0]] + ds[1..];
    }
  }

  lemma {:induction false} EncodeIsSpell(bs: seq<byte>)
    ensures Encode(bs) == Spell(Sextets(bs))
  {
    if |bs| <= 2 {
    } else {
      EncodeIsSpell(bs[3..]);
    }
  }

  lemma BytesOfSextets(b0: byte, b1: byte, b2: byte)
    ensures FirstByte(b0 / 4, b0 % 4 * 16) == b0
    ensures FirstByte(b0 / 4, b0 % 4 * 16 + b1 / 16) == b0
    ensures SecondByte(b0 % 4 * 16 + b1 / 16, b1 % 16 * 4) == b1
    ensures SecondByte(b0 % 4 * 16 + b1 / 16, b1 % 16 * 4 + b2 / 64) == b1
    ensures ThirdByte(b1 % 16 * 4 + b2 / 64, b2 % 64) == b2
  {
  }

  lemma RegroupFour(d0: sextet, d1: sextet, d2: sextet, d3: sextet, ds: seq<sextet>)
    requires Regroup(ds).Some?
    ensures Regroup([d0, d1, d2, d3] + ds)
         == Some([FirstByte(d0, d1), SecondByte(d1, d2), ThirdByte(d2, d3)] + Regroup(ds).value)
  {
    assert ([d0, d1, d2, d3] + ds)[4..] == ds;
  }

  lemma RegroupOne(b0: byte)
    ensures Regroup(OneByte(b0)) == Some([b0])
  {
    BytesOfSextets(b0, 0, 0);
  }

  lemma RegroupTwo(b0: byte, b1: byte)
    ensures Regroup(TwoBytes(b0, b1)) == Some([b0, b1])
  {
    BytesOfSextets(b0, b1, 0);
  }

  lemma RegroupThree(b0: byte, b1: byte, b2: byte, ds: seq<sextet>, rest: seq<byte>)
    requires Regroup(ds) == Some(rest)
    ensures Regroup(ThreeBytes(b0, b1, b2) + ds) == Some([b0, b1, b2] + rest)
  {
    BytesOfSextets(b0, b1, b2);
    RegroupFour(b0 / 4, b0 % 4 * 16 + b1 / 16, b1 % 16 * 4 + b2 / 64, b2 % 64, ds);
  }

  lemma {:induction false} RegroupSextets(bs: seq<byte>)
    ensures Regroup(Sextets(bs)) == Some(bs)
  {
    if |bs| == 0 {
    } else if |bs| == 1 {
      RegroupOne(bs[0]);
      assert bs == [bs[0]];
    } else if |bs| == 2 {
      RegroupTwo(bs[0], bs[1]);
      assert bs == [bs[0], bs[1]];
    } else {
      var rest := bs[3..];
      RegroupSextets(rest);
      RegroupThree(bs[0], bs[1], bs[2], Sextets(rest), rest);
      assert bs == [bs[0], bs[1], bs[2]] + rest;
    }
  }

  /** Decoding an encoded buffer gives the buffer back. */
  lemma RoundTrip(bs: seq<byte>)
    ensures Decode(Encode(bs)) == Some(bs)
  {
    EncodeIsSpell(bs);
    DigitsOfSpell(Sextets(bs));
    RegroupSextets(bs);
  }

  /** The letters are those of Table 1 in RFC 4648: upper case, lower case, digits, plus and slash, each block
      in order. */
  lemma StandardAlphabet(x: sextet)
    ensures Letter(0) == 'A' && Letter(26) == 'a' && Letter(52) == '0' && Letter(62) == '+' && Letter(63) == '/'
    ensures x < 63 && x !in {25, 51, 61, 62} ==> Letter(x + 1) as int == Letter(x) as int + 1
  {
  }

  /** Three bytes and their four letters are the same 24 bits, the first byte being the highest. */
  lemma SameBits(b0: byte, b1: byte, b2: byte)
    ensures var ds := ThreeBytes(b0, b1, b2);
            var d0: int, d1: int, d2: int, d3: int := ds[0], ds[1], ds[2], ds[3];
            0x40000 * d0 + 0x1000 * d1 + 0x40 * d2 + d3 == 0x10000 * b0 + 0x100 * b1 + b2
  {
  }

  predicate IsLetter(c: char) {
    'A' <= c <= 'Z' || 'a' <= c <= 'z' || '0' <= c <= '9' || c == '+' || c == '/'
  }

  lemma LettersHaveDigits(c: char)
    ensures IsLetter(c) <==> Digit(c).Some?
  {
  }

  /** A string without its line breaks. */
  function Unwrapped(s: string): string {
    if s == "" then "" else (if IsLineBreak(s[0]) then "" else [s[0]]) + Unwrapped(s[1..])
  }

  predicate AllLetters(s: string) {
    forall c :: c in s ==> IsLetter(c)
  }

  lemma FirstLetter(c: char, t: string)
    requires !IsLineBreak(c)
    ensures Digits([c] + t) == match Digit(c)
                               case None => None
                               case Some(d) =>
                                 match Digits(t)
                                 case None => None
                                 case Some(ds) => Some([d] + ds)
    ensures AllLetters([c] + t) <==> IsLetter(c) && AllLetters(t)
  {
    assert ([c] + t)[1..] == t && ([c] + t)[0] == c;
    assert forall x :: x in [c] + t <==> x == c || x in t;
  }

  lemma {:induction false} DigitsOfLetters(s: string)
    ensures Digits(s) == Digits(Unwrapped(s))
    ensures Digits(s).Some? <==> AllLetters(Unwrapped(s))
    ensures Digits(s).Some? ==> |Digits(s).value| == |Unwrapped(s)|
  {
    if s == "" {
    } else if IsLineBreak(s[0]) {
      DigitsOfLetters(s[1..]);
      assert Unwrapped(s) == Unwrapped(s[1..]);
    } else {
      DigitsOfLetters(s[1..]);
      LettersHaveDigits(s[0]);
      assert Unwrapped(s) == [s[0]] + Unwrapped(s[1..]);
      FirstLetter(s[0], Unwrapped(s[1..]));
    }
  }

  lemma {:induction false} RegroupFailsOnOne(ds: seq<sextet>)
    ensures Regroup(ds).None? <==> |ds| % 4 == 1
  {
    if |ds| < 4 {
    } else {
      var rest := ds[4..];
      RegroupFailsOnOne(rest);
      assert |ds| % 4 == |rest| % 4;
    }
  }

  /** Line breaks are skipped, and exactly the strings of letters of which not a single one is left over can
      be decoded; a padding character is not a letter. */
  lemma WhatDecodes(s: string)
    ensures Decode(s) == Decode(Unwrapped(s))
    ensures Decode(s).Some? <==> AllLetters(Unwrapped(s)) && |Unwrapped(s)| % 4 != 1
    ensures !IsLetter('=')
  {
    DigitsOfLetters(s);
    if Digits(s).Some? {
      RegroupFailsOnOne(Digits(s).value);
    }
  }

  /** Only the empty buffer has an empty cursor string. */
  lemma EmptyOnlyForEmpty(bs: seq<byte>)
    ensures Encode(bs) == "" <==> bs == []
  {
  }
}
