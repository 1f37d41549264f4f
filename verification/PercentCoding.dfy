/**
  Percent coding from the outside: what every text decodes to, and what is written for each byte.
 */
module PercentCoding {
  import opened HttpText
  import opened Sequences
  import opened Wrappers

  const LOWER_DIGITS := "0123456789abcdef"
  const UPPER_DIGITS := "0123456789ABCDEF"

  /** The character is the hexadecimal digit of this value, in either case. */
  predicate IsDigit(c: char, n: nat) {
    n < 16 && (c == LOWER_DIGITS[n] || c == UPPER_DIGITS[n])
  }

  lemma DigitValue(c: char, n: nat)
    ensures IsDigit(c, n) <==> HexValue(c) == Some(n)
  {
  }

  lemma DigitsWritten(n: nat)
    requires n < 16
    ensures LowerHexDigit(n) == LOWER_DIGITS[n] && UpperHexDigit(n) == UPPER_DIGITS[n]
  {
  }

  // ---------------------------------------------------------------- what a text decodes to

  /** The units of a text: a character that stands for itself, a byte in two digits, a code in four, a plus, and a
      percent sign that begins nothing. */
  datatype Unit =
    | Plain(c: char)
    | Escaped(byte: nat, hi: char, lo: char)
    | Wide(code: nat, d3: char, d2: char, d1: char, d0: char)
    | Plus
    | Stray

  function TextOf(u: Unit): (text: string)
    ensures text != []
  {
    match u
    case Plain(c) => [c]
    case Escaped(_, hi, lo) => ['%', hi, lo]
    case Wide(_, d3, d2, d1, d0) => ['%', 'u', d3, d2, d1, d0]
    case Plus => "+"
    case Stray => "%"
  }

  /** Two digits, or a `u` and four. */
  ghost predicate CompletesEscape(s: string) {
    (|s| >= 2 && exists hi: nat, lo: nat :: IsDigit(s[0], hi) && IsDigit(s[1], lo))
    || (|s| >= 5 && s[0] == 'u'
        && exists a: nat, b: nat, c: nat, d: nat ::
             IsDigit(s[1], a) && IsDigit(s[2], b) && IsDigit(s[3], c) && IsDigit(s[4], d))
  }

  /** The unit is what it says, before this text. */
  ghost predicate IsUnit(u: Unit, rest: string) {
    match u
    case Plain(c) => c != '%' && c != '+'
    case Escaped(byte, hi, lo) => IsDigit(hi, byte / 16) && IsDigit(lo, byte % 16)
    case Wide(code, d3, d2, d1, d0) =>
      IsDigit(d3, code / 4096) && IsDigit(d2, code / 256 % 16) && IsDigit(d1, code / 16 % 16) && IsDigit(d0, code % 16)
    case Plus => true
    case Stray => !CompletesEscape(rest)
  }

  function TextsOf(units: seq<Unit>): string {
    if units == [] then [] else TextOf(units[0]) + TextsOf(units[1..])
  }

  ghost predicate AreUnits(units: seq<Unit>) {
    units == [] || (IsUnit(units[0], TextsOf(units[1..])) && AreUnits(units[1..]))
  }

  function Meaning(u: Unit, plusToSpace: bool): string {
    match u
    case Plain(c) => [c]
    case Escaped(byte, _, _) => if byte < 256 then [byte as char] else []
    case Wide(code, _, _, _, _) => Utf8(code)
    case Plus => if plusToSpace then " " else "+"
    case Stray => "%"
  }

  function Meanings(units: seq<Unit>, plusToSpace: bool): string {
    if units == [] then [] else Meaning(units[0], plusToSpace) + Meanings(units[1..], plusToSpace)
  }

  lemma TwoDigitsRead(s: string, n: nat)
    requires |s| >= 2 && IsDigit(s[0], n / 16) && IsDigit(s[1], n % 16)
    ensures HexPrefix(s, 2, 0) == Some(n)
  {
    DigitValue(s[0], n / 16);
    DigitValue(s[1], n % 16);
    assert s[1..][0] == s[1];
    assert HexPrefix(s, 2, 0) == HexPrefix(s[1..], 1, n / 16) == HexPrefix(s[1..][1..], 0, n);
  }

  lemma FourDigitsRead(s: string, n: nat)
    requires |s| >= 4 && IsDigit(s[0], n / 4096) && IsDigit(s[1], n / 256 % 16) && IsDigit(s[2], n / 16 % 16)
    requires IsDigit(s[3], n % 16)
    ensures HexPrefix(s, 4, 0) == Some(n)
  {
    DigitValue(s[0], n / 4096);
    DigitValue(s[1], n / 256 % 16);
    DigitValue(s[2], n / 16 % 16);
    DigitValue(s[3], n % 16);
    ThreeMore(s, n / 4096, n / 256, n / 16, n);
  }

  lemma ThreeMore(s: string, a: nat, b: nat, c: nat, d: nat)
    requires |s| >= 4 && HexValue(s[0]) == Some(a) && HexValue(s[1]) == Some(b % 16) && HexValue(s[2]) == Some(c % 16)
    requires HexValue(s[3]) == Some(d % 16) && b / 16 == a && c / 16 == b && d / 16 == c
    ensures HexPrefix(s, 4, 0) == Some(d)
  {
    var s1 := s[1..];
    var s2 := s1[1..];
    var s3 := s2[1..];
    assert s1[0] == s[1] && s2[0] == s[2] && s3[0] == s[3];
    assert HexPrefix(s3, 1, c) == HexPrefix(s3[1..], 0, d);
    assert HexPrefix(s2, 2, b) == HexPrefix(s3, 1, c);
    assert HexPrefix(s1, 3, a) == HexPrefix(s2, 2, b);
  }

  /** A number is read only where there are digits. */
  lemma {:induction false} OnlyDigitsRead(s: string, count: nat, acc: nat)
    ensures HexPrefix(s, count, acc).Some? ==>
              count <= |s| && forall i :: 0 <= i < count ==> HexValue(s[i]).Some?
  {
    if count > 0 && s != [] && HexValue(s[0]).Some? {
      OnlyDigitsRead(s[1..], count - 1, acc * 16 + HexValue(s[0]).value);
      forall i | 0 <= i < count && count <= |s| && HexPrefix(s, count, acc).Some?
        ensures HexValue(s[i]).Some?
      {
        assert i > 0 ==> s[i] == s[1..][i - 1];
      }
    }
  }

  lemma NoTwoDigits(s: string)
    requires !CompletesEscape(s)
    ensures HexPrefix(s, 2, 0) == None
  {
    OnlyDigitsRead(s, 2, 0);
    if HexPrefix(s, 2, 0).Some? {
      DigitValue(s[0], HexValue(s[0]).value);
      DigitValue(s[1], HexValue(s[1]).value);
    }
  }

  lemma NoFourDigits(s: string)
    requires s != [] && s[0] == 'u' && !CompletesEscape(s)
    ensures HexPrefix(s[1..], 4, 0) == None
  {
    var t := s[1..];
    OnlyDigitsRead(t, 4, 0);
    if HexPrefix(t, 4, 0).Some? {
      FourDigitsComplete(s, t);
    }
  }

  lemma FourDigitsComplete(s: string, t: string)
    requires s != [] && s[0] == 'u' && t == s[1..] && |t| >= 4 && forall i :: 0 <= i < 4 ==> HexValue(t[i]).Some?
    ensures CompletesEscape(s)
  {
    var a, b, c, d := HexValue(t[0]).value, HexValue(t[1]).value, HexValue(t[2]).value, HexValue(t[3]).value;
    DigitValue(t[0], a);
    DigitValue(t[1], b);
    DigitValue(t[2], c);
    DigitValue(t[3], d);
    assert s[1] == t[0] && s[2] == t[1] && s[3] == t[2] && s[4] == t[3];
  }

  lemma StrayDecodes(s: string, rest: string, plusToSpace: bool)
    requires s == "%" + rest && !CompletesEscape(rest)
    ensures DecodeOne(s, plusToSpace) == ("%", 1)
  {
    assert s[1..] == rest;
    if rest != [] {
      if rest[0] == 'u' {
        NoFourDigits(rest);
        assert s[2..] == rest[1..];
      } else {
        NoTwoDigits(rest);
      }
    }
  }

  lemma DigitIsNoLetter(c: char, n: nat)
    requires IsDigit(c, n)
    ensures c != 'u'
  {
  }

  lemma PlusDecodes(rest: string, plusToSpace: bool)
    ensures DecodeOne("+" + rest, plusToSpace) == (if plusToSpace then " " else "+", 1)
  {
  }

  /** One unit decodes to its meaning. */
  lemma UnitDecodes(u: Unit, rest: string, plusToSpace: bool)
    requires IsUnit(u, rest)
    ensures DecodeOne(TextOf(u) + rest, plusToSpace) == (Meaning(u, plusToSpace), |TextOf(u)|)
  {
    var s := TextOf(u) + rest;
    match u
    case Plain(c) =>
    case Escaped(byte, hi, lo) =>
      DigitIsNoLetter(hi, byte / 16);
      assert s[1..][0] == hi && s[1..][1] == lo;
      TwoDigitsRead(s[1..], byte);
    case Wide(code, d3, d2, d1, d0) =>
      var t := s[2..];
      assert t[0] == d3 && t[1] == d2 && t[2] == d1 && t[3] == d0;
      FourDigitsRead(t, code);
    case Plus => PlusDecodes(rest, plusToSpace);
    case Stray => StrayDecodes(s, rest, plusToSpace);
  }

  lemma DecodeFrom(text: string, rest: string, meaning: string, plusToSpace: bool)
    requires text != [] && DecodeOne(text + rest, plusToSpace) == (meaning, |text|)
    ensures Decode(text + rest, plusToSpace) == meaning + Decode(rest, plusToSpace)
  {
    assert (text + rest)[|text|..] == rest;
  }

  /** A text of units decodes to their meanings. */
  lemma {:induction false} UnitsDecode(units: seq<Unit>, plusToSpace: bool)
    requires AreUnits(units)
    ensures Decode(TextsOf(units), plusToSpace) == Meanings(units, plusToSpace)
  {
    if units != [] {
      var u, rest := units[0], TextsOf(units[1..]);
      UnitDecodes(u, rest, plusToSpace);
      DecodeFrom(TextOf(u), rest, Meaning(u, plusToSpace), plusToSpace);
      UnitsDecode(units[1..], plusToSpace);
    }
  }

  ghost predicate BeginsWithUnit(s: string, u: Unit, rest: string) {
    s == TextOf(u) + rest && IsUnit(u, rest) && |rest| < |s|
  }

  lemma TwoDigitNumber(hi: nat, lo: nat) returns (byte: nat)
    requires hi < 16 && lo < 16
    ensures byte / 16 == hi && byte % 16 == lo
  {
    byte := hi * 16 + lo;
  }

  lemma FourDigitNumber(a: nat, b: nat, c: nat, d: nat) returns (code: nat)
    requires a < 16 && b < 16 && c < 16 && d < 16
    ensures code / 4096 == a && code / 256 % 16 == b && code / 16 % 16 == c && code % 16 == d
  {
    code := a * 4096 + b * 256 + c * 16 + d;
    assert code / 16 == a * 256 + b * 16 + c;
    assert code / 256 == a * 16 + b;
  }

  lemma PercentUnit(s: string) returns (u: Unit, rest: string)
    requires s != [] && s[0] == '%'
    ensures BeginsWithUnit(s, u, rest)
  {
    var t := s[1..];
    if |t| >= 2 && exists hi: nat, lo: nat :: IsDigit(t[0], hi) && IsDigit(t[1], lo) {
      var hi: nat, lo: nat :| IsDigit(t[0], hi) && IsDigit(t[1], lo);
      var byte := TwoDigitNumber(hi, lo);
      u, rest := Escaped(byte, t[0], t[1]), t[2..];
    } else if |t| >= 5 && t[0] == 'u' && exists a: nat, b: nat, c: nat, d: nat ::
      IsDigit(t[1], a) && IsDigit(t[2], b) && IsDigit(t[3], c) && IsDigit(t[4], d) {
      var a: nat, b: nat, c: nat, d: nat :|
        IsDigit(t[1], a) && IsDigit(t[2], b) && IsDigit(t[3], c) && IsDigit(t[4], d);
      var code := FourDigitNumber(a, b, c, d);
      u, rest := Wide(code, t[1], t[2], t[3], t[4]), t[5..];
    } else {
      u, rest := Stray, t;
    }
  }

  /** Every text is one of units, so that they say what anything decodes to. */
  lemma {:induction false} EveryTextHasUnits(s: string) returns (units: seq<Unit>)
    ensures TextsOf(units) == s && AreUnits(units)
    decreases |s|
  {
    if s == [] {
      units := [];
    } else {
      var u, rest;
      if s[0] == '%' {
        u, rest := PercentUnit(s);
      } else {
        u, rest := if s[0] == '+' then Plus else Plain(s[0]), s[1..];
        HeadAndTail(s);
      }
      var more := EveryTextHasUnits(rest);
      units := [u] + more;
      assert units[1..] == more;
    }
  }

  // ---------------------------------------------------------------- what is written

  /** A byte stands for itself if it is a letter, a digit or one of nine marks; else it is written in capital
      hexadecimal digits (section 2.1 of RFC 3986). */
  lemma ByteWritten(c: char)
    requires c as int < 256
    ensures EncodeByte(c)
            == if '0' <= c <= '9' || 'A' <= c <= 'Z' || 'a' <= c <= 'z' || c in "-_.!~*'()" then [c]
               else ['%', UPPER_DIGITS[c as int / 16], UPPER_DIGITS[c as int % 16]]
  {
    DigitsWritten(c as nat / 16);
    DigitsWritten(c as nat % 16);
  }

  /** The encoding of forms, which writes a space as a plus. */
  function FormEncoded(s: string): string
    requires IsByteString(s)
  {
    if s == [] then [] else (if s[0] == ' ' then "+" else EncodeByte(s[0])) + FormEncoded(s[1..])
  }

  /** Decoding undoes it, for any bytes. */
  lemma {:induction false} FormReadsBack(s: string)
    requires IsByteString(s)
    ensures Decode(FormEncoded(s), true) == s
  {
    if s != [] {
      var rest := FormEncoded(s[1..]);
      if s[0] == ' ' {
        UnitDecodes(Plus, rest, true);
        DecodeFrom("+", rest, " ", true);
      } else {
        DecodeAfterByte(s[0], rest, true);
      }
      FormReadsBack(s[1..]);
    }
  }

  /** Where a plus does not stand for a space it stays, and everything else decodes as before. */
  lemma PlusStays(before: seq<Unit>, after: seq<Unit>)
    requires AreUnits(before + [Plus] + after)
    ensures Decode(TextsOf(before + [Plus] + after), false) == Meanings(before, false) + "+" + Meanings(after, false)
    ensures Decode(TextsOf(before + [Plus] + after), true) == Meanings(before, true) + " " + Meanings(after, true)
  {
    UnitsDecode(before + [Plus] + after, false);
    UnitsDecode(before + [Plus] + after, true);
    forall plus: bool
      ensures Meanings(before + [Plus] + after, plus)
              == Meanings(before, plus) + (if plus then " " else "+") + Meanings(after, plus)
    {
      MeaningsOfTwo(before + [Plus], after, plus);
      MeaningsOfTwo(before, [Plus], plus);
      assert [Plus][1..] == [];
    }
  }

  lemma {:induction false} MeaningsOfTwo(a: seq<Unit>, b: seq<Unit>, plusToSpace: bool)
    ensures Meanings(a + b, plusToSpace) == Meanings(a, plusToSpace) + Meanings(b, plusToSpace)
  {
    if a == [] {
      assert a + b == b;
    } else {
      assert (a + b)[1..] == a[1..] + b;
      MeaningsOfTwo(a[1..], b, plusToSpace);
    }
  }
}
