/**
  Base64 encoding with its accumulator kept in a signed 32-bit word.
 */
module Base64 {
  import opened Sequences
  import opened Wrappers

  type Byte = n: int | 0 <= n < 256

  type Sextet = n: int | 0 <= n < 64

  /** The alphabet, letter by letter as table 1 of RFC 4648 orders it. */
  function Letter(n: Sextet): char {
    if n < 26 then 'A' + n as char
    else if n < 52 then 'a' + (n - 26) as char
    else if n < 62 then '0' + (n - 52) as char
    else if n == 62 then '+' else '/'
  }

  function Value(c: char): Option<Sextet> {
    if 'A' <= c <= 'Z' then Some((c - 'A') as int)
    else if 'a' <= c <= 'z' then Some((c - 'a') as int + 26)
    else if '0' <= c <= '9' then Some((c - '0') as int + 52)
    else if c == '+' then Some(62) else if c == '/' then Some(63) else None
  }

  lemma ValueOfLetter(n: Sextet)
    ensures Value(Letter(n)) == Some(n) && Letter(n) != '='
  {
  }

  // ---------------------------------------------------------------- section 4 of RFC 4648

  /** How the bits of neighbouring bytes make up the letters of a group. */
  datatype Code = Code(first: Byte -> char, second: (Byte, Byte) -> char, third: (Byte, Byte) -> char,
                       fourth: Byte -> char)

  function First(a: Byte): char {
    Letter(a / 4)
  }

  function Second(a: Byte, b: Byte): char {
    Letter(a % 4 * 16 + b / 16)
  }

  function Third(b: Byte, c: Byte): char {
    Letter(b % 16 * 4 + c / 64)
  }

  function Fourth(c: Byte): char {
    Letter(c % 64)
  }

  function Standard(): Code {
    Code(First, Second, Third, Fourth)
  }

  function Group(code: Code, a: Byte, b: Byte, c: Byte): string {
    [code.first(a), code.second(a, b), code.third(b, c), code.fourth(c)]
  }

  /** Each group of three bytes is four letters; a shorter last group is padded. */
  function EncodedWith(code: Code, s: seq<Byte>): string {
    if |s| == 0 then []
    else if |s| == 1 then [code.first(s[0]), code.second(s[0], 0), '=', '=']
    else if |s| == 2 then [code.first(s[0]), code.second(s[0], s[1]), code.third(s[1], 0), '=']
    else Group(code, s[0], s[1], s[2]) + EncodedWith(code, s[3..])
  }

  function Encoded(s: seq<Byte>): string {
    EncodedWith(Standard(), s)
  }

  // ---------------------------------------------------------------- the word arithmetic of the encoder

  type Int32 = n: int | -0x8000_0000 <= n < 0x8000_0000

  function Wrap32(n: int): Int32 {
    (n + 0x8000_0000) % 0x1_0000_0000 - 0x8000_0000
  }

  function PowerOfTwo(k: nat): (r: nat)
    ensures r > 0
  {
    if k == 0 then 1 else 2 * PowerOfTwo(k - 1)
  }

  /** The six bits of `val` above the lowest `k`. */
  function SixBits(val: Int32, k: nat): Sextet {
    val / PowerOfTwo(k) % 64
  }

  function Shifted(val: Int32): Int32 {
    Wrap32(val * 256)
  }

  lemma SmallPowers()
    ensures PowerOfTwo(0) == 1 && PowerOfTwo(2) == 4 && PowerOfTwo(4) == 16 && PowerOfTwo(6) == 64
  {
    assert PowerOfTwo(3) == 8;
    assert PowerOfTwo(5) == 32;
  }

  /** Truncation loses no bit that is still needed: the word ends in the last two bytes. */
  lemma LastTwoBytes(val: Int32, b: Byte)
    ensures Shifted(val) + b < 0x8000_0000
    ensures (Shifted(val) + b) % 65536 == val % 256 * 256 + b
  {
    var k := (val * 256 + 0x8000_0000) / 0x1_0000_0000;
    var m := val - 0x100_0000 * k;
    assert Shifted(val) == 256 * m;
    var q, r := m / 256, m % 256;
    assert m == 256 * q + r;
    LowEight(val, 0x1_0000 * k + q, r);
    LowSixteen(256 * m + b, q, 256 * r + b);
  }

  lemma LowSixteen(x: int, q: int, r: int)
    requires x == 65536 * q + r && 0 <= r < 65536
    ensures x % 65536 == r
  {
  }

  lemma DivFour(x: int, q: int, r: int)
    requires x == 4 * q + r && 0 <= r < 4
    ensures x / 4 == q && x % 4 == r
  {
  }

  lemma DivSixteen(x: int, q: int, r: int)
    requires x == 16 * q + r && 0 <= r < 16
    ensures x / 16 == q && x % 16 == r
  {
  }

  lemma DivSixtyFour(x: int, q: int, r: int)
    requires x == 64 * q + r && 0 <= r < 64
    ensures x / 64 == q && x % 64 == r
  {
  }

  lemma LowSix(x: int, q: int, r: int)
    requires x == 64 * q + r && 0 <= r < 64
    ensures x % 64 == r
  {
  }

  lemma LowEight(x: int, q: int, r: Byte)
    requires x == 256 * q + r
    ensures x % 256 == r
  {
  }

  lemma BitsFromTwo(val: int, high: int, prev: Byte, b: Byte)
    requires val == 65536 * high + prev * 256 + b
    ensures val / 4 % 64 == b / 4
  {
    DivFour(val, 16384 * high + 64 * prev + b / 4, b % 4);
    LowSix(val / 4, 256 * high + prev, b / 4);
  }

  lemma BitsFromFour(val: int, high: int, prev: Byte, b: Byte)
    requires val == 65536 * high + prev * 256 + b
    ensures val / 16 % 64 == prev % 4 * 16 + b / 16
  {
    DivSixteen(val, 4096 * high + 16 * prev + b / 16, b % 16);
    LowSix(val / 16, 64 * high + prev / 4, prev % 4 * 16 + b / 16);
  }

  lemma BitsFromSix(val: int, high: int, prev: Byte, b: Byte)
    requires val == 65536 * high + prev * 256 + b
    ensures val / 64 % 64 == prev % 16 * 4 + b / 64
  {
    DivSixtyFour(val, 1024 * high + 4 * prev + b / 64, b % 64);
    LowSix(val / 64, 16 * high + prev / 16, prev % 16 * 4 + b / 64);
  }

  lemma BitsFromZero(val: int, high: int, prev: Byte, b: Byte)
    requires val == 65536 * high + prev * 256 + b
    ensures val % 64 == b % 64 && val % 256 == b
  {
    LowSix(val, 1024 * high + prev * 4 + b / 64, b % 64);
    LowEight(val, 256 * high + prev, b);
  }

  /** The letters that a byte completes when `k` bits are pending before it. */
  function Completed(code: Code, prev: Byte, b: Byte, k: nat): string {
    if k == 0 then [code.first(b)]
    else if k == 2 then [code.second(prev, b)]
    else [code.third(prev, b), code.fourth(b)]
  }

  /** The inner loop: letters for all complete groups of six bits above `valb`. */
  method Drain(val: Int32, valb0: int, ghost prev: Byte, ghost b: Byte) returns (letters: string, valb: int)
    requires val % 65536 == prev * 256 + b
    requires valb0 == 2 || valb0 == 4 || valb0 == 6
    ensures letters == Completed(Standard(), prev, b, valb0 - 2) && valb == if valb0 == 6 then -6 else valb0 - 6
    ensures val % 256 == b
  {
    SmallPowers();
    ghost var high := val / 65536;
    BitsFromTwo(val, high, prev, b);
    BitsFromFour(val, high, prev, b);
    BitsFromSix(val, high, prev, b);
    BitsFromZero(val, high, prev, b);
    letters, valb := [], valb0;
    while valb >= 0
      invariant valb == valb0 - 6 * |letters| && letters <= Completed(Standard(), prev, b, valb0 - 2)
      invariant valb >= 0 || |letters| == |Completed(Standard(), prev, b, valb0 - 2)|
      decreases valb
    {
      letters := letters + [Letter(SixBits(val, valb))];
      valb := valb - 6;
    }
  }

  /** The letters for all bits of a text that fill six, without the rest. */
  function Filled(code: Code, s: seq<Byte>): string {
    if |s| == 0 then []
    else if |s| == 1 then [code.first(s[0])]
    else if |s| == 2 then [code.first(s[0]), code.second(s[0], s[1])]
    else Group(code, s[0], s[1], s[2]) + Filled(code, s[3..])
  }

  /** How many bits are pending after `n` bytes. */
  function Pending(n: nat): (k: nat)
    ensures k == 0 || k == 2 || k == 4
  {
    if n < 3 then 2 * n else Pending(n - 3)
  }

  lemma {:induction false} PendingNext(n: nat)
    ensures Pending(n + 1) == if Pending(n) == 4 then 0 else Pending(n) + 2
  {
    if n >= 3 {
      PendingNext(n - 3);
    }
  }

  lemma {:induction false} FilledOneMore(code: Code, s: seq<Byte>, b: Byte)
    ensures Filled(code, s + [b])
            == Filled(code, s) + Completed(code, if s == [] then 0 else s[|s| - 1], b, Pending(|s|))
  {
    if |s| >= 3 {
      FilledOneMore(code, s[3..], b);
      assert (s + [b])[3..] == s[3..] + [b];
    } else if |s| == 2 {
      assert (s + [b])[3..] == [];
    }
  }

  /** What completes the text: the rest of the bits in a last letter, and the padding. */
  function Closing(code: Code, s: seq<Byte>): string {
    if Pending(|s|) == 0 then []
    else if Pending(|s|) == 2 then [code.second(s[|s| - 1], 0), '=', '=']
    else [code.third(s[|s| - 1], 0), '=']
  }

  lemma {:induction false} EncodedIsFilledAndClosed(code: Code, s: seq<Byte>)
    ensures EncodedWith(code, s) == Filled(code, s) + Closing(code, s)
  {
    if |s| >= 3 {
      EncodedIsFilledAndClosed(code, s[3..]);
      assert Closing(code, s[3..]) == Closing(code, s);
      Associate(Group(code, s[0], s[1], s[2]), Filled(code, s[3..]), Closing(code, s));
    }
  }

  function Groups(n: nat): nat {
    if n < 3 then 0 else 1 + Groups(n - 3)
  }

  lemma {:induction false} FilledLength(code: Code, s: seq<Byte>)
    ensures 2 * |Filled(code, s)| == 8 * Groups(|s|) + Pending(|s|)
  {
    if |s| >= 3 {
      FilledLength(code, s[3..]);
    }
  }

  lemma LastBits(val: Int32, b: Byte)
    requires val % 256 == b
    ensures SixBits(Shifted(val), 4) == b % 4 * 16 && SixBits(Shifted(val), 6) == b % 16 * 4
  {
    SmallPowers();
    LastTwoBytes(val, 0);
    var high := Shifted(val) / 65536;
    BitsFromFour(Shifted(val), high, b, 0);
    BitsFromSix(Shifted(val), high, b, 0);
  }

  /** One round of the outer loop. */
  method Feed(val0: Int32, valb0: int, ghost prev: Byte, b: Byte) returns (letters: string, val: Int32, valb: int)
    requires val0 % 256 == prev && (valb0 == -6 || valb0 == -4 || valb0 == -2)
    ensures letters == Completed(Standard(), prev, b, valb0 + 6) && valb == if valb0 == -2 then -6 else valb0 + 2
    ensures val % 256 == b
  {
    LastTwoBytes(val0, b);
    val := Shifted(val0) + b;
    letters, valb := Drain(val, valb0 + 8, prev, b);
  }

  lemma LowTwo(n: nat, groups: nat, k: nat)
    requires n == 4 * groups + k && k < 4
    ensures n % 4 == k
  {
  }

  /** Padding up to a multiple of four. */
  method Pad(out0: string, ghost groups: nat, ghost k: nat) returns (out: string)
    requires |out0| == 4 * groups + k && (k == 0 || k == 2 || k == 3)
    ensures out == out0 + if k == 2 then "==" else if k == 3 then "=" else ""
  {
    out := out0;
    LowTwo(|out0|, groups, k);
    ghost var left: nat := if k == 0 then 0 else 4 - k;
    while |out| % 4 != 0
      invariant left <= 2 && out + (if left == 2 then "==" else if left == 1 then "=" else "")
                             == out0 + if k == 2 then "==" else if k == 3 then "=" else ""
      invariant |out| % 4 == if left == 0 then 0 else 4 - left
      decreases left
    {
      out := out + "=";
      left := left - 1;
    }
  }

  /** The letter of the pending bits, if there are any. */
  method LastLetter(val: Int32, valb: int, ghost last: Byte) returns (letters: string)
    requires (valb == -6 || valb == -4 || valb == -2) && (valb > -6 ==> val % 256 == last)
    ensures letters == if valb == -6 then [] else if valb == -4 then [Second(last, 0)] else [Third(last, 0)]
  {
    letters := [];
    if valb > -6 {
      LastBits(val, last);
      letters := [Letter(SixBits(Shifted(val), valb + 8))];
    }
  }

  lemma ClosingIs(code: Code, s: seq<Byte>, letters: string)
    requires letters == if Pending(|s|) == 0 then []
                        else if Pending(|s|) == 2 then [code.second(s[|s| - 1], 0)]
                        else [code.third(s[|s| - 1], 0)]
    ensures Closing(code, s) == letters + if Pending(|s|) == 2 then "==" else if Pending(|s|) == 4 then "=" else ""
  {
  }

  /** The remaining bits and the padding. */
  method Finish(val: Int32, valb: int, ghost s: seq<Byte>, out0: string) returns (out: string)
    requires valb == Pending(|s|) - 6 && out0 == Filled(Standard(), s) && (s != [] ==> val % 256 == s[|s| - 1])
    ensures out == Encoded(s)
  {
    EncodedIsFilledAndClosed(Standard(), s);
    FilledLength(Standard(), s);
    var letters := LastLetter(val, valb, if s == [] then 0 else s[|s| - 1]);
    ClosingIs(Standard(), s, letters);
    out := Pad(out0 + letters, Groups(|s|), if Pending(|s|) == 0 then 0 else if Pending(|s|) == 2 then 2 else 3);
    Associate(out0, letters, if Pending(|s|) == 2 then "==" else if Pending(|s|) == 4 then "=" else "");
  }

  lemma FilledUpTo(code: Code, s: seq<Byte>, i: nat, prev: Byte)
    requires i < |s| && (i > 0 ==> prev == s[i - 1]) && (i == 0 ==> prev == 0)
    ensures Filled(code, s[..i + 1]) == Filled(code, s[..i]) + Completed(code, prev, s[i], Pending(i))
  {
    FilledOneMore(code, s[..i], s[i]);
    assert s[..i + 1] == s[..i] + [s[i]];
  }

  method Encode(s: seq<Byte>) returns (out: string)
    ensures out == Encoded(s)
  {
    out := [];
    var val: Int32, valb, prev: Byte := 0, -6, 0;
    for i := 0 to |s|
      invariant valb == Pending(i) - 6
      invariant val % 256 == prev && (i > 0 ==> prev == s[i - 1]) && (i == 0 ==> prev == 0)
      invariant out == Filled(Standard(), s[..i])
    {
      FilledUpTo(Standard(), s, i, prev);
      PendingNext(i);
      var letters: string;
      letters, val, valb := Feed(val, valb, prev, s[i]);
      out := out + letters;
      prev := s[i];
    }
    assert s[..|s|] == s;
    out := Finish(val, valb, s, out);
  }

  // ---------------------------------------------------------------- what the encoding promises

  /** The three bytes of four sextets. */
  function Bytes(p: Sextet, q: Sextet, r: Sextet, w: Sextet): (Byte, Byte, Byte) {
    (p * 4 + q / 16, q % 16 * 16 + r / 4, r % 4 * 64 + w)
  }

  /** The reference decoder: groups of four letters, the last one possibly padded. */
  function Decoded(t: string): Option<seq<Byte>> {
    if t == [] then Some([])
    else if |t| < 4 || Value(t[0]) == None || Value(t[1]) == None then None
    else
      var p, q: Sextet := Value(t[0]).value, Value(t[1]).value;
      if t[2] == '=' then
        if t[2..] == "==" && q % 16 == 0 then Some([Bytes(p, q, 0, 0).0]) else None
      else if Value(t[2]) == None then None
      else
        var r: Sextet := Value(t[2]).value;
        if t[3] == '=' then
          if |t| == 4 && r % 4 == 0 then Some([Bytes(p, q, r, 0).0, Bytes(p, q, r, 0).1]) else None
        else if Value(t[3]) == None then None
        else
          var (a, b, c) := Bytes(p, q, r, Value(t[3]).value);
          match Decoded(t[4..])
          case None => None
          case Some(rest) => Some([a, b, c] + rest)
  }

  lemma BytesOfSextets(a: Byte, b: Byte, c: Byte)
    ensures Bytes(a / 4, a % 4 * 16 + b / 16, b % 16 * 4 + c / 64, c % 64) == (a, b, c)
  {
    DivSixteen(a % 4 * 16 + b / 16, a % 4, b / 16);
    DivFour(b % 16 * 4 + c / 64, b % 16, c / 64);
  }

  lemma LettersOf(a: Byte, b: Byte, c: Byte)
    ensures Value(First(a)) == Some(a / 4) && Value(Second(a, b)) == Some(a % 4 * 16 + b / 16)
    ensures Value(Third(b, c)) == Some(b % 16 * 4 + c / 64) && Value(Fourth(c)) == Some(c % 64)
    ensures Third(b, c) != '=' && Fourth(c) != '='
  {
    ValueOfLetter(a / 4);
    ValueOfLetter(a % 4 * 16 + b / 16);
    ValueOfLetter(b % 16 * 4 + c / 64);
    ValueOfLetter(c % 64);
  }

  lemma DecodeGroup(w: string, p: Sextet, q: Sextet, r: Sextet, s: Sextet, more: string)
    requires |w| == 4 && Value(w[0]) == Some(p) && Value(w[1]) == Some(q) && Value(w[2]) == Some(r)
             && Value(w[3]) == Some(s)
    requires w[2] != '=' && w[3] != '=' && Decoded(more).Some?
    ensures var (a, b, c) := Bytes(p, q, r, s); Decoded(w + more) == Some([a, b, c] + Decoded(more).value)
  {
    assert (w + more)[4..] == more;
  }

  lemma GroupDecodes(a: Byte, b: Byte, c: Byte, more: string)
    requires Decoded(more).Some?
    ensures Decoded(Group(Standard(), a, b, c) + more) == Some([a, b, c] + Decoded(more).value)
  {
    LettersOf(a, b, c);
    BytesOfSextets(a, b, c);
    DecodeGroup(Group(Standard(), a, b, c), a / 4, a % 4 * 16 + b / 16, b % 16 * 4 + c / 64, c % 64, more);
  }

  lemma DecodeTwoLetters(w: string, p: Sextet, q: Sextet)
    requires |w| == 4 && Value(w[0]) == Some(p) && Value(w[1]) == Some(q) && w[2] == '=' && w[3] == '=' && q % 16 == 0
    ensures Decoded(w) == Some([Bytes(p, q, 0, 0).0])
  {
    assert w[2..] == "==";
  }

  lemma DecodeThreeLetters(w: string, p: Sextet, q: Sextet, r: Sextet)
    requires |w| == 4 && Value(w[0]) == Some(p) && Value(w[1]) == Some(q) && Value(w[2]) == Some(r)
    requires w[2] != '=' && w[3] == '=' && r % 4 == 0
    ensures Decoded(w) == Some([Bytes(p, q, r, 0).0, Bytes(p, q, r, 0).1])
  {
  }

  lemma OneByteDecodes(a: Byte)
    ensures Decoded([First(a), Second(a, 0), '=', '=']) == Some([a])
  {
    LettersOf(a, 0, 0);
    BytesOfSextets(a, 0, 0);
    DivSixteen(a % 4 * 16, a % 4, 0);
    DecodeTwoLetters([First(a), Second(a, 0), '=', '='], a / 4, a % 4 * 16);
  }

  lemma TwoBytesDecode(a: Byte, b: Byte)
    ensures Decoded([First(a), Second(a, b), Third(b, 0), '=']) == Some([a, b])
  {
    LettersOf(a, b, 0);
    BytesOfSextets(a, b, 0);
    DivFour(b % 16 * 4, b % 16, 0);
    DecodeThreeLetters([First(a), Second(a, b), Third(b, 0), '='], a / 4, a % 4 * 16 + b / 16, b % 16 * 4);
  }

  lemma EncodedFromFirst(code: Code, s: seq<Byte>)
    requires |s| > 2
    ensures EncodedWith(code, s) == Group(code, s[0], s[1], s[2]) + EncodedWith(code, s[3..])
    ensures s == [s[0], s[1], s[2]] + s[3..]
  {
  }

  lemma EncodedShort(code: Code, s: seq<Byte>)
    ensures |s| == 0 ==> EncodedWith(code, s) == []
    ensures |s| == 1 ==> EncodedWith(code, s) == [code.first(s[0]), code.second(s[0], 0), '=', '=']
    ensures |s| == 2 ==> EncodedWith(code, s) == [code.first(s[0]), code.second(s[0], s[1]), code.third(s[1], 0), '=']
  {
  }

  /** Decoding gives back any bytes, of any length. */
  lemma {:induction false} DecodeUndoesEncode(s: seq<Byte>)
    ensures Decoded(Encoded(s)) == Some(s)
  {
    EncodedShort(Standard(), s);
    if |s| == 1 {
      OneByteDecodes(s[0]);
      assert s == [s[0]];
    } else if |s| == 2 {
      TwoBytesDecode(s[0], s[1]);
      assert s == [s[0], s[1]];
    } else if |s| > 2 {
      DecodeUndoesEncode(s[3..]);
      EncodedFromFirst(Standard(), s);
      GroupDecodes(s[0], s[1], s[2], Encoded(s[3..]));
    }
  }

  /** The last `padding` characters are padding and no other is. */
  ghost predicate Padded(t: string, padding: nat) {
    padding <= |t| && forall k :: 0 <= k < |t| ==> (t[k] == '=' <==> k >= |t| - padding)
  }

  ghost predicate NeverPadding(code: Code) {
    (forall a: Byte :: code.first(a) != '=' && code.fourth(a) != '=')
    && forall a: Byte, b: Byte :: code.second(a, b) != '=' && code.third(a, b) != '='
  }

  lemma {:induction false} LengthOf(code: Code, s: seq<Byte>)
    ensures |EncodedWith(code, s)| == 4 * ((|s| + 2) / 3)
  {
    if |s| > 2 {
      LengthOf(code, s[3..]);
    }
  }

  lemma {:induction false} PaddingOf(code: Code, s: seq<Byte>)
    requires NeverPadding(code)
    ensures Padded(EncodedWith(code, s), if |s| % 3 == 0 then 0 else 3 - |s| % 3)
  {
    if |s| > 2 {
      PaddingOf(code, s[3..]);
      PaddedAfter(Group(code, s[0], s[1], s[2]), EncodedWith(code, s[3..]), if |s| % 3 == 0 then 0 else 3 - |s| % 3);
    }
  }

  lemma PaddedAfter(group: string, rest: string, padding: nat)
    requires Padded(rest, padding) && '=' !in group
    ensures Padded(group + rest, padding)
  {
  }

  /** Four characters for each three bytes or part of them, and as much padding as bytes are missing. */
  lemma LengthAndPadding(s: seq<Byte>)
    ensures |Encoded(s)| == 4 * ((|s| + 2) / 3)
    ensures Padded(Encoded(s), if |s| % 3 == 0 then 0 else 3 - |s| % 3)
  {
    LengthOf(Standard(), s);
    assert NeverPadding(Standard());
    PaddingOf(Standard(), s);
  }

  // ---------------------------------------------------------------- the bits

  /** Table 1 of RFC 4648. */
  const CAPITALS := "ABCDEFGHIJKLMNOPQRSTUVWXYZ"
  const SMALLS := "abcdefghijklmnopqrstuvwxyz"
  const NUMERALS := "0123456789"
  const ALPHABET := CAPITALS + (SMALLS + (NUMERALS + "+/"))

  lemma LetterIs(n: Sextet)
    ensures Letter(n) == ALPHABET[n]
  {
    if n < 26 {
      CapitalIs(n);
    } else if n < 52 {
      SmallIs(n - 26);
    } else if n < 62 {
      NumeralIs(n - 52);
    }
  }

  lemma CapitalIs(k: nat)
    requires k < 26
    ensures CAPITALS[k] == 'A' + k as char
  {
  }

  lemma SmallIs(k: nat)
    requires k < 26
    ensures SMALLS[k] == 'a' + k as char
  {
  }

  lemma NumeralIs(k: nat)
    requires k < 10
    ensures NUMERALS[k] == '0' + k as char
  {
  }

  /** The byte at `i`, and zeros behind the last one. */
  function ByteAt(s: seq<Byte>, i: nat): Byte {
    if i < |s| then s[i] else 0
  }

  /** The 24 bits of three bytes. */
  function Word(s: seq<Byte>, i: nat): nat {
    65536 * ByteAt(s, i) + 256 * ByteAt(s, i + 1) + ByteAt(s, i + 2)
  }

  /** The four letters of 24 bits, the highest six first, and padding for the letters of missing bytes. */
  predicate IsGroup(t: string, i: nat, word: nat, bytes: nat) {
    word < 16777216 && i + 4 <= |t|
    && t[i] == ALPHABET[word / 262144] && t[i + 1] == ALPHABET[word / 4096 % 64]
    && t[i + 2] == (if bytes > 1 then ALPHABET[word / 64 % 64] else '=')
    && t[i + 3] == (if bytes > 2 then ALPHABET[word % 64] else '=')
  }

  lemma FourParts(word: nat, p: Sextet, q: Sextet, r: Sextet, w: Sextet)
    requires word == 262144 * p + 4096 * q + 64 * r + w
    ensures word / 262144 == p && word / 4096 % 64 == q && word / 64 % 64 == r && word % 64 == w && word < 16777216
  {
    assert word / 64 == 4096 * p + 64 * q + r;
    assert word / 4096 == 64 * p + q;
  }

  lemma SplitBits(word: nat, a: Byte, b: Byte, c: Byte)
    requires word == 65536 * a + 256 * b + c
    ensures word / 262144 == a / 4 && word / 4096 % 64 == a % 4 * 16 + b / 16
    ensures word / 64 % 64 == b % 16 * 4 + c / 64 && word % 64 == c % 64 && word < 16777216
  {
    FourParts(word, a / 4, a % 4 * 16 + b / 16, b % 16 * 4 + c / 64, c % 64);
  }

  lemma LettersOfWord(word: nat, a: Byte, b: Byte, c: Byte)
    requires word == 65536 * a + 256 * b + c
    ensures word < 16777216 && First(a) == ALPHABET[word / 262144] && Second(a, b) == ALPHABET[word / 4096 % 64]
    ensures Third(b, c) == ALPHABET[word / 64 % 64] && Fourth(c) == ALPHABET[word % 64]
  {
    SplitBits(word, a, b, c);
    LetterIs(a / 4);
    LetterIs(a % 4 * 16 + b / 16);
    LetterIs(b % 16 * 4 + c / 64);
    LetterIs(c % 64);
  }

  lemma GroupOf(word: nat, a: Byte, b: Byte, c: Byte, rest: string)
    requires word == 65536 * a + 256 * b + c
    ensures IsGroup(Group(Standard(), a, b, c) + rest, 0, word, 3)
    ensures IsGroup([First(a), Second(a, b), Third(b, c), '='], 0, word, 2)
    ensures IsGroup([First(a), Second(a, b), '=', '='], 0, word, 1)
  {
    LettersOfWord(word, a, b, c);
  }

  lemma FirstGroup(s: seq<Byte>)
    requires s != []
    ensures IsGroup(Encoded(s), 0, Word(s, 0), |s|)
  {
    GroupOf(Word(s, 0), s[0], ByteAt(s, 1), ByteAt(s, 2), if |s| > 2 then Encoded(s[3..]) else []);
    EncodedShort(Standard(), s);
    if |s| > 2 {
      EncodedFromFirst(Standard(), s);
    }
  }

  /** The characters from `j` on are the letters of the bits of the bytes from `i` on. */
  lemma {:induction false} GroupAt(s: seq<Byte>, k: nat, i: nat, j: nat)
    requires i == 3 * k && j == 4 * k && i < |s|
    ensures IsGroup(Encoded(s), j, Word(s, i), |s| - i)
    decreases k
  {
    if k == 0 {
      FirstGroup(s);
    } else {
      var rest := s[3..];
      GroupAt(rest, k - 1, i - 3, j - 4);
      OneGroupLater(s, rest, i - 3, j - 4);
    }
  }

  /** The k-th four characters are the letters of the 24 bits of the k-th three bytes. */
  lemma GroupsAreBits(s: seq<Byte>, k: nat)
    requires 3 * k < |s|
    ensures IsGroup(Encoded(s), 4 * k, Word(s, 3 * k), |s| - 3 * k)
  {
    GroupAt(s, k, 3 * k, 4 * k);
  }

  lemma LaterGroup(s: seq<Byte>, i: nat, first: string, rest: string, j: nat)
    requires |s| > 3 && i < |s| - 3 && |first| == 4 && IsGroup(rest, j, Word(s[3..], i), |s| - 3 - i)
    ensures IsGroup(first + rest, j + 4, Word(s, i + 3), |s| - (i + 3))
  {
    LaterBytes(s, i);
    LaterLetters(first, rest, j, Word(s, i + 3), |s| - 3 - i);
  }

  lemma OneGroupLater(s: seq<Byte>, rest: seq<Byte>, i: nat, j: nat)
    requires |s| > 3 && rest == s[3..] && i < |rest| && IsGroup(Encoded(rest), j, Word(rest, i), |rest| - i)
    ensures IsGroup(Encoded(s), j + 4, Word(s, i + 3), |s| - (i + 3))
  {
    EncodedFromFirst(Standard(), s);
    LaterGroup(s, i, Group(Standard(), s[0], s[1], s[2]), Encoded(rest), j);
  }

  lemma LaterLetters(first: string, rest: string, j: nat, word: nat, bytes: nat)
    requires |first| == 4 && IsGroup(rest, j, word, bytes)
    ensures IsGroup(first + rest, j + 4, word, bytes)
  {
  }

  lemma LaterBytes(s: seq<Byte>, i: nat)
    requires |s| > 3 && i < |s| - 3
    ensures Word(s[3..], i) == Word(s, i + 3)
  {
  }
}
