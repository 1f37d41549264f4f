/**
  Text helpers of the HTTP library: hexadecimal, percent coding, trimming and splitting.  A `char` below
  256 stands for one byte.
 */
module HttpText {
  import opened Sequences
  import opened Wrappers

  /** `isspace` in the C locale. */
  predicate White(c: char) {
    c == ' ' || '\t' as int <= c as int <= '\r' as int
  }

  function SkipWhite(s: string): string {
    if s != [] && White(s[0]) then SkipWhite(s[1..]) else s
  }

  // ---------------------------------------------------------------- hexadecimal

  /** The value of a hexadecimal digit of either case. */
  function HexValue(c: char): (r: Option<nat>)
    ensures r.Some? ==> r.value < 16
  {
    if '0' <= c <= '9' then Some((c - '0') as nat)
    else if 'A' <= c <= 'F' then Some((c - 'A') as nat + 10)
    else if 'a' <= c <= 'f' then Some((c - 'a') as nat + 10)
    else None
  }

  /** The number written by the first `count` characters, if those are all hexadecimal digits. */
  function HexPrefix(s: string, count: nat, acc: nat): Option<nat> {
    if count == 0 then Some(acc)
    else if s == [] || HexValue(s[0]) == None then None
    else HexPrefix(s[1..], count - 1, acc * 16 + HexValue(s[0]).value)
  }

  method FromHexToI(s: string, start: nat, count: nat) returns (r: Option<nat>)
    requires count > 0
    ensures r == if start >= |s| then None else HexPrefix(s[start..], count, 0)
  {
    if start >= |s| {
      return None;
    }
    var i, cnt, val: nat := start, count, 0;
    while cnt > 0
      invariant start <= i <= |s|
      invariant HexPrefix(s[start..], count, 0) == HexPrefix(s[i..], cnt, val)
      decreases cnt
    {
      if i == |s| {
        return None;
      }
      var v := HexValue(s[i]);
      if v == None {
        return None;
      }
      assert s[i..][1..] == s[i + 1..];
      val := val * 16 + v.value;
      i, cnt := i + 1, cnt - 1;
    }
    return Some(val);
  }

  function LowerHexDigit(n: nat): (c: char)
    requires n < 16
    ensures HexValue(c) == Some(n)
  {
    if n < 10 then '0' + n as char else 'a' + (n - 10) as char
  }

  function UpperHexDigit(n: nat): (c: char)
    requires n < 16
    ensures HexValue(c) == Some(n)
  {
    if n < 10 then '0' + n as char else 'A' + (n - 10) as char
  }

  function Digits(n: nat): string {
    if n == 0 then [] else Digits(n / 16) + [LowerHexDigit(n % 16)]
  }

  /** The lower-case hexadecimal numeral of `n`, without leading zeros. */
  function Hex(n: nat): string {
    if n == 0 then "0" else Digits(n)
  }

  method FromIToHex(n: nat) returns (ret: string)
    ensures ret == Hex(n)
  {
    ret := [LowerHexDigit(n % 16)];
    var m: nat := n / 16;
    while m > 0
      invariant n > 0 ==> Digits(n) == Digits(m) + ret
      invariant n == 0 ==> m == 0 && ret == "0"
      decreases m
    {
      Associate(Digits(m / 16), [LowerHexDigit(m % 16)], ret);
      ret := [LowerHexDigit(m % 16)] + ret;
      m := m / 16;
    }
    assert Digits(0) + ret == ret;
  }

  // ---------------------------------------------------------------- percent coding

  predicate IsByteString(s: string) {
    forall i :: 0 <= i < |s| ==> s[i] as int < 256
  }

  predicate Alphanumeric(c: char) {
    '0' <= c <= '9' || 'A' <= c <= 'Z' || 'a' <= c <= 'z'
  }

  predicate Unreserved(c: char) {
    || Alphanumeric(c) || c == '-' || c == '_' || c == '.' || c == '!'
    || c == '~' || c == '*' || c == '\'' || c == '(' || c == ')'
  }

  function EncodeByte(c: char): string
    requires c as int < 256
  {
    if Unreserved(c) then [c]
    else ['%', UpperHexDigit(c as nat / 16), UpperHexDigit(c as nat % 16)]
  }

  function Encode(s: string): string
    requires IsByteString(s)
  {
    if s == [] then [] else EncodeByte(s[0]) + Encode(s[1..])
  }

  lemma EncodeStep(done: string, s: string, i: nat)
    requires IsByteString(s) && i < |s|
    ensures done + Encode(s[i..]) == (done + EncodeByte(s[i])) + Encode(s[i + 1..])
  {
    DropTwice(s, i, 1);
    Associate(done, EncodeByte(s[i]), Encode(s[i + 1..]));
  }

  method EncodeQueryParam(value: string) returns (escaped: string)
    requires IsByteString(value)
    ensures escaped == Encode(value)
  {
    escaped := [];
    assert value[0..] == value;
    for i := 0 to |value|
      invariant escaped + Encode(value[i..]) == Encode(value)
    {
      EncodeStep(escaped, value, i);
      var n := value[i] as nat;
      escaped := escaped + if Unreserved(value[i]) then [value[i]]
                           else ['%', UpperHexDigit(n / 16), UpperHexDigit(n % 16)];
    }
  }

  /** The UTF-8 bytes of a code, none for a surrogate. */
  function Utf8(code: nat): string {
    if code < 0x80 then [code as char]
    else if code < 0x800 then [(0xC0 + code / 64 % 32) as char, (0x80 + code % 64) as char]
    else if code < 0xD800 || 0xE000 <= code < 0x10000 then
      [(0xE0 + code / 4096 % 16) as char, (0x80 + code / 64 % 64) as char, (0x80 + code % 64) as char]
    else if code < 0x10000 || code >= 0x110000 then []
    else [(0xF0 + code / 262144 % 8) as char, (0x80 + code / 4096 % 64) as char,
          (0x80 + code / 64 % 64) as char, (0x80 + code % 64) as char]
  }

  /** The code that a UTF-8 sequence of one to four bytes stands for. */
  function Utf8Value(s: string): nat
    requires s != [] && IsByteString(s)
  {
    var b := s[0] as nat;
    if |s| == 1 then b
    else if |s| == 2 then b % 32 * 64 + s[1] as nat % 64
    else if |s| == 3 then b % 16 * 4096 + s[1] as nat % 64 * 64 + s[2] as nat % 64
    else b % 8 * 262144 + s[1] as nat % 64 * 4096 + s[2] as nat % 64 * 64 + s[3] as nat % 64
  }

  predicate Continues(c: char) {
    0x80 <= c as int < 0xC0
  }

  /** The shape of the UTF-8 sequence of a code, as section 3 of RFC 3629 has it. */
  predicate HasUtf8Shape(s: string, code: nat) {
    if code < 0x80 then |s| == 1 && s[0] as int < 0x80
    else if code < 0x800 then |s| == 2 && 0xC0 <= s[0] as int < 0xE0 && Continues(s[1])
    else if code < 0x10000 then |s| == 3 && 0xE0 <= s[0] as int < 0xF0 && Continues(s[1]) && Continues(s[2])
    else |s| == 4 && 0xF0 <= s[0] as int < 0xF8 && Continues(s[1]) && Continues(s[2]) && Continues(s[3])
  }

  lemma TwoBytes(code: nat, hi: nat, lo: nat)
    requires code == hi * 64 + lo && hi < 32 && lo < 64
    ensures code / 64 % 32 == hi && code % 64 == lo && (0xC0 + hi) % 32 == hi && (0x80 + lo) % 64 == lo
  {
  }

  lemma ThreeBytes(code: nat, hi: nat, mid: nat, lo: nat)
    requires code == hi * 4096 + mid * 64 + lo && hi < 16 && mid < 64 && lo < 64
    ensures code / 4096 % 16 == hi && code / 64 % 64 == mid && code % 64 == lo
    ensures (0xE0 + hi) % 16 == hi && (0x80 + mid) % 64 == mid && (0x80 + lo) % 64 == lo
  {
    assert code / 64 == hi * 64 + mid;
  }

  lemma FourBytes(code: nat, top: nat, hi: nat, mid: nat, lo: nat)
    requires code == top * 262144 + hi * 4096 + mid * 64 + lo && top < 8 && hi < 64 && mid < 64 && lo < 64
    ensures code / 262144 % 8 == top && code / 4096 % 64 == hi && code / 64 % 64 == mid && code % 64 == lo
    ensures (0xF0 + top) % 8 == top && (0x80 + hi) % 64 == hi && (0x80 + mid) % 64 == mid && (0x80 + lo) % 64 == lo
  {
    assert code / 64 == top * 4096 + hi * 64 + mid;
    assert code / 4096 == top * 64 + hi;
  }

  lemma InBase64(n: nat) returns (hi: nat, lo: nat)
    ensures n == hi * 64 + lo && lo < 64 && hi == n / 64
  {
    hi, lo := n / 64, n % 64;
  }

  lemma Utf8Shape(code: nat)
    requires code < 0x110000 && !(0xD800 <= code < 0xE000)
    ensures HasUtf8Shape(Utf8(code), code)
  {
  }

  /** Every code that is not a surrogate is written as bytes that stand for it, and a surrogate as none. */
  lemma Utf8ReadsBack(code: nat)
    requires code < 0x110000
    ensures if 0xD800 <= code < 0xE000 then Utf8(code) == []
            else var s := Utf8(code); 1 <= |s| <= 4 && IsByteString(s) && Utf8Value(s) == code
  {
    if code >= 0x80 && !(0xD800 <= code < 0xE000) {
      var upper, lo := InBase64(code);
      if code < 0x800 {
        TwoBytes(code, upper, lo);
      } else {
        var hi, mid := InBase64(upper);
        if code < 0x10000 {
          ThreeBytes(code, hi, mid, lo);
        } else {
          var top, next := InBase64(hi);
          FourBytes(code, top, next, mid, lo);
        }
      }
    }
  }

  lemma {:induction false} HexPrefixFits(s: string, count: nat, acc: nat, bound: nat)
    requires acc < bound
    ensures HexPrefix(s, count, acc).Some? ==> count <= |s| && HexPrefix(s, count, acc).value < bound * Power16(count)
  {
    if count > 0 && s != [] && HexValue(s[0]).Some? {
      HexPrefixFits(s[1..], count - 1, acc * 16 + HexValue(s[0]).value, bound * 16);
      assert bound * 16 * Power16(count - 1) == bound * Power16(count);
    }
  }

  function Power16(n: nat): nat {
    if n == 0 then 1 else 16 * Power16(n - 1)
  }

  lemma TwoDigits(s: string)
    ensures HexPrefix(s, 2, 0).Some? ==> |s| >= 2 && HexPrefix(s, 2, 0).value < 256
  {
    HexPrefixFits(s, 2, 0, 1);
    assert Power16(2) == 16 * Power16(1);
  }

  lemma FourDigits(s: string)
    ensures HexPrefix(s, 4, 0).Some? ==> |s| >= 4
  {
    HexPrefixFits(s, 4, 0, 1);
  }

  /** What the text starts with, decoded, and how many characters that took; a `%` that starts no escape
      stands for itself. */
  function DecodeOne(s: string, plusToSpace: bool): (r: (string, nat))
    requires s != []
    ensures 0 < r.1 <= |s|
  {
    if s[0] == '%' && |s| > 1 && s[1] == 'u' then
      FourDigits(s[2..]);
      match HexPrefix(s[2..], 4, 0)
      case Some(code) => (Utf8(code), 6)
      case None => ("%", 1)
    else if s[0] == '%' && |s| > 1 then
      TwoDigits(s[1..]);
      match HexPrefix(s[1..], 2, 0)
      case Some(code) => ([code as char], 3)
      case None => ("%", 1)
    else
      ([if s[0] == '+' && plusToSpace then ' ' else s[0]], 1)
  }

  function Decode(s: string, plusToSpace: bool): string
    decreases |s|
  {
    if s == [] then []
    else
      var (text, used) := DecodeOne(s, plusToSpace);
      text + Decode(s[used..], plusToSpace)
  }

  method DecodeAt(s: string, i: nat, plusToSpace: bool) returns (text: string, used: nat)
    requires i < |s|
    ensures (text, used) == DecodeOne(s[i..], plusToSpace)
  {
    ghost var rest := s[i..];
    if s[i] == '%' && i + 1 < |s| {
      if s[i + 1] == 'u' {
        var val := FromHexToI(s, i + 2, 4);
        FourDigits(rest[2..]);
        assert rest[2..] == s[i + 2..];
        if val.Some? {
          return Utf8(val.value), 6;
        }
      } else {
        var val := FromHexToI(s, i + 1, 2);
        TwoDigits(rest[1..]);
        assert rest[1..] == s[i + 1..];
        if val.Some? {
          return [val.value as char], 3;
        }
      }
    } else if plusToSpace && s[i] == '+' {
      return [' '], 1;
    }
    return [s[i]], 1;
  }

  lemma DecodeStep(done: string, rest: string, text: string, used: nat, plusToSpace: bool)
    requires rest != [] && (text, used) == DecodeOne(rest, plusToSpace)
    ensures done + Decode(rest, plusToSpace) == (done + text) + Decode(rest[used..], plusToSpace)
  {
    Associate(done, text, Decode(rest[used..], plusToSpace));
  }

  method DecodeUrl(s: string, plusToSpace: bool) returns (result: string)
    ensures result == Decode(s, plusToSpace)
  {
    result := [];
    var i: nat := 0;
    ghost var rest := s;
    assert s[0..] == s;
    while i < |s|
      invariant i <= |s| && s[i..] == rest
      invariant result + Decode(rest, plusToSpace) == Decode(s, plusToSpace)
    {
      var text, used := DecodeAt(s, i, plusToSpace);
      DecodeStep(result, rest, text, used, plusToSpace);
      DropTwice(s, i, used);
      rest := rest[used..];
      result := result + text;
      i := i + used;
    }
  }

  lemma DecodeAfterByte(c: char, rest: string, plusToSpace: bool)
    requires c as int < 256
    ensures Decode(EncodeByte(c) + rest, plusToSpace) == [c] + Decode(rest, plusToSpace)
  {
    var s := EncodeByte(c) + rest;
    if Unreserved(c) {
      assert s[1..] == rest;
      assert DecodeOne(s, plusToSpace) == ([c], 1);
    } else {
      var hi, lo := UpperHexDigit(c as nat / 16), UpperHexDigit(c as nat % 16);
      assert s[0] == '%' && s[1] == hi && s[2] == lo;
      assert s[1..][1..] == s[2..] && s[2..][1..] == rest && s[3..] == rest;
      assert HexPrefix(s[1..], 2, 0) == HexPrefix(s[2..], 1, c as nat / 16) == HexPrefix(rest, 0, c as nat);
    }
  }

  /** Percent decoding undoes percent encoding of any bytes, whether or not `+` stands for a space. */
  lemma {:induction false} DecodeUndoesEncode(s: string, plusToSpace: bool)
    requires IsByteString(s)
    ensures Decode(Encode(s), plusToSpace) == s
  {
    if s != [] {
      DecodeAfterByte(s[0], Encode(s[1..]), plusToSpace);
      DecodeUndoesEncode(s[1..], plusToSpace);
    }
  }

  lemma {:induction false} UnreservedIsPlain(s: string, plusToSpace: bool)
    requires forall i :: 0 <= i < |s| ==> Unreserved(s[i])
    ensures Decode(s, plusToSpace) == s
  {
    if s != [] {
      UnreservedIsPlain(s[1..], plusToSpace);
    }
  }

  /** Text without a percent sign stands for itself, where `+` does. */
  lemma {:induction false} PercentFreeIsPlain(s: string)
    requires '%' !in s
    ensures Decode(s, false) == s
  {
    if s != [] {
      PercentFreeIsPlain(s[1..]);
    }
  }

  /** Encoded text has only unreserved characters, percent signs and hexadecimal digits. */
  lemma {:induction false} EncodedCharacters(s: string)
    requires IsByteString(s)
    ensures forall i :: 0 <= i < |Encode(s)| ==> Unreserved(Encode(s)[i]) || Encode(s)[i] == '%'
    ensures s != [] ==> Encode(s) != []
  {
    if s != [] {
      EncodedCharacters(s[1..]);
    }
  }
}
