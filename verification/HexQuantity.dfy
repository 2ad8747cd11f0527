// Quantities kept as hexadecimal strings, and their addition.
module HexQuantity {
  import opened Wrappers

  function LowerChar(c: char): char {
    if 'A' <= c <= 'Z' then c - 'A' + 'a' else c
  }

  function ToLower(s: string): string {
    seq(|s|, i requires 0 <= i < |s| => LowerChar(s[i]))
  }

  function TrimPrefix(s: string, prefix: string): string {
    if prefix <= s then s[|prefix|..] else s
  }

  /** A hexadecimal string in lower case without its "0x". */
  function Plain(hex: string): string {
    TrimPrefix(ToLower(hex), "0x")
  }

  // ---- reading and writing integers ----

  function Digit(c: char): Option<nat> {
    if '0' <= c <= '9' then Some((c - '0') as nat)
    else if 'a' <= c <= 'f' then Some((c - 'a') as nat + 10)
    else if 'A' <= c <= 'F' then Some((c - 'A') as nat + 10)
    else None
  }

  /** The value of a run of digits; nothing if one of them is not a digit of the base. */
  function ReadDigits(s: string, base: nat): Option<nat> {
    if s == "" then Some(0)
    else
      var last := Digit(s[|s| - 1]);
      match ReadDigits(s[..|s| - 1], base)
      case None => None
      case Some(high) => if last.Some? && last.value < base then Some(high * base + last.value) else None
  }

  /** An optional sign and at least one digit. */
  function ReadInt(s: string, base: nat): Option<int> {
    var signed := s != "" && (s[0] == '-' || s[0] == '+');
    var digits := if signed then s[1..] else s;
    if digits == "" then None
    else
      match ReadDigits(digits, base)
      case None => None
      case Some(n) => if signed && s[0] == '-' then Some(0 - n) else Some(n)
  }

  function DigitChar(d: nat): char
    requires d < 16
  {
    if d < 10 then '0' + d as char else 'a' + (d - 10) as char
  }

  function WriteDigits(n: nat): string {
    if n < 16 then [DigitChar(n)] else WriteDigits(n / 16) + [DigitChar(n % 16)]
  }

  function Text(i: int): string {
    if i < 0 then "-" + WriteDigits(-i) else WriteDigits(i)
  }

  /** The integer that a string stands for: read as hexadecimal, else as decimal, else zero. */
  function BigInt(hex: string): int {
    match ReadInt(Plain(hex), 16)
    case Some(i) => i
    case None =>
      match ReadInt(Plain(hex), 10)
      case Some(i) => i
      case None => 0
  }

  function Add(hex: string, other: string): string {
    Text(BigInt(hex) + BigInt(other))
  }

  // ---- what strings stand for ----

  /** Digits have their hexadecimal values, in either case, and are written in lower case. */
  lemma DigitValues(d: nat)
    requires d < 16
    ensures DigitChar(d) == "0123456789abcdef"[d]
    ensures Digit("0123456789abcdef"[d]) == Some(d) == Digit("0123456789ABCDEF"[d])
  {
  }

  predicate HexDigits(s: string) {
    s != "" && forall c :: c in s ==> Digit(c).Some?
  }

  lemma {:induction false} DigitsAreRead(s: string)
    requires forall c :: c in s ==> Digit(c).Some?
    ensures ReadDigits(s, 16).Some? && ReadDigits(ToLower(s), 16) == ReadDigits(s, 16)
  {
    if s == "" {
    } else {
      var high, last := s[..|s| - 1], s[|s| - 1];
      assert last in s && forall c :: c in high ==> c in s;
      DigitsAreRead(high);
      assert ToLower(s)[..|s| - 1] == ToLower(high);
      assert Digit(LowerChar(last)) == Digit(last) && Digit(last).value < 16;
    }
  }

  lemma LowerPrefix(s: string)
    ensures ToLower("0x" + s) == "0x" + ToLower(s) && ToLower("0X" + s) == "0x" + ToLower(s)
  {
  }

  lemma TrimmedPrefix(t: string)
    ensures TrimPrefix("0x" + t, "0x") == t
  {
    assert ("0x" + t)[2..] == t;
  }

  lemma NoPrefix(s: string)
    requires HexDigits(s)
    ensures TrimPrefix(ToLower(s), "0x") == ToLower(s)
  {
    var t := ToLower(s);
    if |s| >= 2 {
      assert s[1] in s && t[1] == LowerChar(s[1]) && t[1] != "0x"[1];
    }
  }

  lemma ReadLower(s: string)
    requires HexDigits(s)
    ensures ReadDigits(s, 16).Some? && ReadInt(ToLower(s), 16) == Some(ReadDigits(s, 16).value)
  {
    DigitsAreRead(s);
    assert s[0] in s && ToLower(s)[0] == LowerChar(s[0]);
    assert ToLower(s) != "" && ToLower(s)[0] != '-' && ToLower(s)[0] != '+';
  }

  /** Hexadecimal digits stand for their value in either case, with and without a prefix in either case. */
  lemma PrefixAndCase(s: string)
    requires HexDigits(s)
    ensures ReadDigits(s, 16).Some?
    ensures BigInt(s) == BigInt("0x" + s) == BigInt("0X" + s) == ReadDigits(s, 16).value
  {
    LowerPrefix(s);
    TrimmedPrefix(ToLower(s));
    NoPrefix(s);
    ReadLower(s);
  }

  /** A sign in front of digits counts. */
  lemma SignCounts(s: string)
    requires HexDigits(s)
    ensures BigInt("+" + s) == BigInt(s) && BigInt("-" + s) == 0 - BigInt(s)
  {
    PrefixAndCase(s);
    ReadLower(s);
    SignStays('+', s);
    SignStays('-', s);
    assert ("+" + ToLower(s))[1..] == ToLower(s) && ("-" + ToLower(s))[1..] == ToLower(s);
    assert ToLower(s)[0] == LowerChar(s[0]) && s[0] in s;
  }

  lemma SignStays(c: char, s: string)
    requires c == '+' || c == '-'
    ensures Plain([c] + s) == [c] + ToLower(s)
  {
    assert ToLower([c] + s) == [c] + ToLower(s);
    assert ([c] + ToLower(s))[0] != "0x"[0];
  }

  lemma {:induction false} BadDigit(s: string, i: nat, base: nat)
    requires i < |s| && Digit(s[i]).None?
    ensures ReadDigits(s, base).None?
    decreases |s|
  {
    if i == |s| - 1 {
    } else {
      BadDigit(s[..|s| - 1], i, base);
    }
  }

  /** A string that is not a number stands for zero. */
  lemma NotANumber(hex: string, i: nat)
    requires i < |Plain(hex)| && Digit(Plain(hex)[i]).None? && (i == 0 ==> Plain(hex)[0] != '-' && Plain(hex)[0] != '+')
    ensures BigInt(hex) == 0
  {
    var s := Plain(hex);
    if s[0] == '-' || s[0] == '+' {
      assert s[1..][i - 1] == s[i];
      BadDigit(s[1..], i - 1, 16);
      BadDigit(s[1..], i - 1, 10);
    } else {
      BadDigit(s, i, 16);
      BadDigit(s, i, 10);
    }
  }

  // ---- what addition keeps ----

  lemma {:induction false} DecimalIsHex(s: string)
    requires ReadDigits(s, 10).Some?
    ensures ReadDigits(s, 16).Some?
  {
    if s == "" {
    } else {
      DecimalIsHex(s[..|s| - 1]);
    }
  }

  /** The decimal reading is never used: every decimal numeral also reads as hexadecimal. */
  lemma FallbackIsDead(hex: string)
    ensures ReadInt(Plain(hex), 10).Some? ==> ReadInt(Plain(hex), 16).Some?
  {
    var s := Plain(hex);
    if ReadInt(s, 10).Some? {
      DecimalIsHex(if s[0] == '-' || s[0] == '+' then s[1..] else s);
    }
  }

  predicate LowerHex(c: char) {
    '0' <= c <= '9' || 'a' <= c <= 'f'
  }

  lemma {:induction false} WrittenDigits(n: nat)
    ensures WriteDigits(n) != "" && (forall c :: c in WriteDigits(n) ==> LowerHex(c))
    ensures ReadDigits(WriteDigits(n), 16) == Some(n)
  {
    var s := WriteDigits(n);
    if n >= 16 {
      WrittenDigits(n / 16);
      assert s[..|s| - 1] == WriteDigits(n / 16);
    } else {
      assert s[..|s| - 1] == "";
    }
  }

  lemma PlainOfLower(s: string)
    requires forall k :: 0 <= k < |s| ==> s[k] == '-' || LowerHex(s[k])
    ensures Plain(s) == s
  {
    assert ToLower(s) == s;
    assert |s| >= 2 ==> s[1] != "0x"[1];
  }

  /** A run of digits with and without a minus sign. */
  lemma ReadSigned(s: string)
    requires s != "" && (forall c :: c in s ==> LowerHex(c)) && ReadDigits(s, 16).Some?
    ensures ReadInt(s, 16) == Some(ReadDigits(s, 16).value)
    ensures ReadInt("-" + s, 16) == Some(0 - ReadDigits(s, 16).value)
  {
    assert s[0] in s;
    assert ("-" + s)[1..] == s;
  }

  lemma PlainText(i: int)
    ensures Plain(Text(i)) == Text(i)
  {
    WrittenDigits(if i < 0 then -i else i);
    PlainOfLower(Text(i));
  }

  /** Every integer is read back from its text. */
  lemma TextRoundTrip(i: int)
    ensures BigInt(Text(i)) == i
  {
    PlainText(i);
    var n := if i < 0 then -i else i;
    WrittenDigits(n);
    ReadSigned(WriteDigits(n));
  }

  lemma SumOf(a: string, b: string)
    ensures BigInt(Add(a, b)) == BigInt(a) + BigInt(b)
  {
    TextRoundTrip(BigInt(a) + BigInt(b));
  }

  /** Addition of strings is addition of the integers they stand for, in any grouping and order. */
  lemma AddIsAddition(a: string, b: string, c: string)
    ensures BigInt(Add(a, b)) == BigInt(a) + BigInt(b)
    ensures Add(a, Add(b, c)) == Add(Add(a, b), c) && Add(a, b) == Add(b, a)
  {
    SumOf(a, b);
    SumOf(b, c);
  }

  /** A quantity in the form that addition produces. */
  predicate Canonical(hex: string) {
    Text(BigInt(hex)) == hex
  }

  predicate Numeral(s: string) {
    s != "" && (forall c :: c in s ==> LowerHex(c)) && (s[0] == '0' ==> |s| == 1)
  }

  lemma DigitOfLower(c: char)
    requires LowerHex(c)
    ensures Digit(c).Some? && Digit(c).value < 16 && DigitChar(Digit(c).value) == c
    ensures c != '0' ==> Digit(c).value > 0
  {
  }

  lemma WriteMore(n: nat, d: nat)
    requires n > 0 && d < 16
    ensures WriteDigits(n * 16 + d) == WriteDigits(n) + [DigitChar(d)]
  {
    assert (n * 16 + d) / 16 == n && (n * 16 + d) % 16 == d;
  }

  lemma NumeralPrefix(s: string)
    requires Numeral(s) && |s| > 1
    ensures Numeral(s[..|s| - 1]) && s[..|s| - 1] != "0" && LowerHex(s[|s| - 1])
  {
    var high := s[..|s| - 1];
    assert s[|s| - 1] in s && s[0] in s && high[0] == s[0];
    assert forall c :: c in high ==> c in s;
  }

  lemma ReadMore(high: string, last: char, n: nat, d: nat)
    requires ReadDigits(high, 16) == Some(n) && Digit(last) == Some(d) && d < 16
    ensures ReadDigits(high + [last], 16) == Some(n * 16 + d)
  {
    var s := high + [last];
    assert s[..|s| - 1] == high && s[|s| - 1] == last;
  }

  lemma OneDigit(c: char)
    requires LowerHex(c)
    ensures ReadDigits([c], 16) == Digit(c) && WriteDigits(Digit(c).value) == [c]
  {
    DigitOfLower(c);
    ReadMore("", c, 0, Digit(c).value);
    assert "" + [c] == [c];
  }

  lemma {:induction false} ReadNumeral(s: string)
    requires Numeral(s)
    ensures ReadDigits(s, 16).Some? && WriteDigits(ReadDigits(s, 16).value) == s
    ensures s != "0" ==> ReadDigits(s, 16).value > 0
    decreases |s|
  {
    if |s| == 1 {
      assert s == [s[0]] && s[0] in s;
      OneDigit(s[0]);
      DigitOfLower(s[0]);
    } else {
      var high, last := s[..|s| - 1], s[|s| - 1];
      assert s == high + [last];
      NumeralPrefix(s);
      DigitOfLower(last);
      ReadNumeral(high);
      var n, d := ReadDigits(high, 16).value, Digit(last).value;
      ReadMore(high, last, n, d);
      WriteMore(n, d);
    }
  }

  lemma {:induction false} WriteNumeral(n: nat)
    ensures Numeral(WriteDigits(n)) && (n > 0 ==> WriteDigits(n)[0] != '0')
  {
    if n < 16 {
    } else {
      WriteNumeral(n / 16);
    }
  }

  predicate NegatedNumeral(s: string) {
    s != "" && s[0] == '-' && Numeral(s[1..]) && s[1..] != "0"
  }

  lemma NumeralIsCanonical(hex: string)
    requires Numeral(hex)
    ensures Canonical(hex)
  {
    ReadNumeral(hex);
    assert forall k :: 0 <= k < |hex| ==> hex[k] in hex;
    PlainOfLower(hex);
    ReadSigned(hex);
  }

  lemma NegatedNumeralIsCanonical(hex: string)
    requires NegatedNumeral(hex)
    ensures Canonical(hex)
  {
    ReadNumeral(hex[1..]);
    assert forall k :: 1 <= k < |hex| ==> hex[k] in hex[1..];
    PlainOfLower(hex);
    ReadSigned(hex[1..]);
    assert hex == "-" + hex[1..];
  }

  /** The canonical quantities are lower-case hexadecimal numerals without prefix and leading zeros, and their
      negations except that of zero. */
  lemma CanonicalForm(hex: string)
    ensures Canonical(hex) <==> Numeral(hex) || NegatedNumeral(hex)
  {
    if Canonical(hex) {
      var i := BigInt(hex);
      var n := if i < 0 then -i else i;
      WriteNumeral(n);
      assert i < 0 ==> hex[1..] == WriteDigits(n);
    } else if Numeral(hex) {
      NumeralIsCanonical(hex);
    } else if NegatedNumeral(hex) {
      NegatedNumeralIsCanonical(hex);
    }
  }
}
