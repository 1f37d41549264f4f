/**
  What a coded stream means, for every stream: it is chunks and an ending, and the reading follows from these.
 */
module ChunkedMeaning {
  import opened ChunkedSpec
  import opened HttpText
  import opened PercentCoding
  import opened QueryString
  import opened Sequences
  import opened Streams
  import opened Wire
  import opened Wrappers
  import CaseBlind

  // ---------------------------------------------------------------- sizes

  /** The digits of a number to base 16, the last one lowest. */
  predicate IsNumeral(digits: string, n: nat) {
    if digits == [] then n == 0
    else IsDigit(digits[|digits| - 1], n % 16) && IsNumeral(digits[..|digits| - 1], n / 16)
  }

  ghost predicate BeginsWithDigit(s: string) {
    s != [] && exists d: nat :: IsDigit(s[0], d)
  }

  /** White space, a sign, a mark and digits, and whatever follows them. */
  datatype Size = Size(white: string, sign: string, mark: string, digits: string, junk: string)

  function SizeText(s: Size): string {
    s.white + (s.sign + (s.mark + (s.digits + s.junk)))
  }

  /** As many digits as there are, and a mark if there is one before a digit. */
  ghost predicate IsSize(s: Size, n: nat) {
    CaseBlind.WhiteSpace(s.white) && s.sign in ["", "+", "-"] && s.mark in ["", "0x", "0X"]
    && s.digits != [] && IsNumeral(s.digits, n) && !BeginsWithDigit(s.junk)
    && !(s.mark == "" && s.digits == "0" && s.junk != [] && s.junk[0] in "xX" && BeginsWithDigit(s.junk[1..]))
  }

  /** The number, the greatest one if it does not fit, and its complement behind a minus sign. */
  function SizeValue(sign: string, n: nat): nat {
    if n > ULONG_MAX then ULONG_MAX else if sign == "-" && n > 0 then ULONG_MAX + 1 - n else n
  }

  ghost predicate HasSize(line: string, value: nat) {
    exists s: Size, n: nat :: line == SizeText(s) && IsSize(s, n) && value == SizeValue(s.sign, n)
  }

  lemma DigitOrNot(c: char)
    ensures HexValue(c).Some? <==> exists d: nat :: IsDigit(c, d)
  {
    if HexValue(c).Some? {
      DigitValue(c, HexValue(c).value);
    } else {
      forall d: nat
        ensures !IsDigit(c, d)
      {
        DigitValue(c, d);
      }
    }
  }

  lemma {:induction false} NumeralRuns(digits: string, n: nat, rest: string)
    requires IsNumeral(digits, n)
    ensures HexRun(digits + rest, 0) == HexRun(rest, n)
    decreases |digits|
  {
    if digits == [] {
      assert digits + rest == rest;
    } else {
      var last := |digits| - 1;
      var init, c := digits[..last], digits[last];
      assert digits + rest == init + ([c] + rest);
      NumeralRuns(init, n / 16, [c] + rest);
      DigitValue(c, n % 16);
      OneDigitRun(c, n % 16, rest, n / 16);
    }
  }

  lemma NumeralBegins(digits: string, n: nat)
    requires IsNumeral(digits, n) && digits != []
    ensures HexValue(digits[0]).Some? && (|digits| > 1 ==> HexValue(digits[1]).Some?)
    ensures forall i :: 0 <= i < |digits| ==> HexValue(digits[i]).Some?
    decreases |digits|
  {
    var last := |digits| - 1;
    DigitValue(digits[last], n % 16);
    if last > 0 {
      NumeralBegins(digits[..last], n / 16);
    }
  }

  lemma {:induction false} CStringAfter(a: string, b: string)
    requires '\0' !in a
    ensures CString(a + b) == a + CString(b)
  {
    if a == [] {
      assert a + b == b;
    } else {
      assert (a + b)[1..] == a[1..] + b;
      CStringAfter(a[1..], b);
    }
  }

  lemma CStringBegins(junk: string)
    ensures var c := CString(junk);
            (BeginsWithDigit(junk) <==> BeginsWithDigit(c))
            && (junk != [] && junk[0] in "xX" && BeginsWithDigit(junk[1..])
                <==> c != [] && c[0] in "xX" && BeginsWithDigit(c[1..]))
  {
    NulIsNoDigit();
    if junk != [] && junk[0] != '\0' && |junk| > 1 {
      assert CString(junk)[1..] == CString(junk[1..]);
    }
  }

  lemma NulIsNoDigit()
    ensures forall d: nat :: !IsDigit('\0', d)
  {
  }

  /** White space is skipped up to what is none. */
  lemma WhiteThenMore(white: string, s: string)
    requires CaseBlind.WhiteSpace(white) && s != [] && !White(s[0])
    ensures SkipWhite(white + s) == s
  {
    CaseBlind.WhiteSkipped(white, s);
  }

  /** Behind the white space and the sign. */
  lemma MarkedReads(mark: string, digits: string, n: nat, junk: string)
    requires mark in ["", "0x", "0X"] && digits != [] && IsNumeral(digits, n) && !BeginsWithDigit(junk)
    requires !(mark == "" && digits == "0" && junk != [] && junk[0] in "xX" && BeginsWithDigit(junk[1..]))
    ensures var t := mark + (digits + junk);
            var u := if HasHexMark(t) then t[2..] else t;
            u == digits + junk && HexValue(u[0]).Some? && HexRun(u, 0) == n && t[0] !in "+-" && !White(t[0])
            && t[0] != '\0'
  {
    var t := mark + (digits + junk);
    NumeralBegins(digits, n);
    NumeralRuns(digits, n, junk);
    RunEnds(junk, n);
    if mark == "" {
      assert t == digits + junk;
      NoMark(digits, n, junk);
    } else {
      assert t[2] == digits[0] && t[2..] == digits + junk;
    }
  }

  lemma RunEnds(junk: string, n: nat)
    requires !BeginsWithDigit(junk)
    ensures HexRun(junk, n) == n
  {
    if junk != [] {
      DigitOrNot(junk[0]);
    }
  }

  lemma NoMark(digits: string, n: nat, junk: string)
    requires digits != [] && IsNumeral(digits, n)
    requires !(digits == "0" && junk != [] && junk[0] in "xX" && BeginsWithDigit(junk[1..]))
    ensures !HasHexMark(digits + junk)
  {
    var t := digits + junk;
    NumeralBegins(digits, n);
    assert |digits| > 1 ==> t[1] == digits[1];
    if |digits| == 1 && HasHexMark(t) {
      assert digits == "0" && t[1] == junk[0] && t[2] == junk[1..][0];
      DigitOrNot(junk[1..][0]);
    }
  }

  lemma SignReads(sign: string, t: string)
    requires sign in ["", "+", "-"] && t != [] && t[0] !in "+-" && !White(t[0])
    ensures var s := sign + t;
            s != [] && (if s[0] == '-' || s[0] == '+' then s[1..] else s) == t && (s[0] == '-' <==> sign == "-")
            && !White(s[0])
  {
    assert sign == "" ==> sign + t == t;
  }

  lemma StrtoulFrom(text: string, s: string, t: string, u: string, n: nat, minus: bool)
    requires SkipWhite(CString(text)) == s && s != [] && t == (if s[0] == '-' || s[0] == '+' then s[1..] else s)
    requires u == (if HasHexMark(t) then t[2..] else t) && u != [] && HexValue(u[0]).Some? && HexRun(u, 0) == n
    requires minus <==> s[0] == '-'
    ensures Strtoul16(text) == Some(SizeValue(if minus then "-" else "", n))
  {
  }

  lemma SignedReads(text: string, white: string, sign: string, t: string, u: string, n: nat)
    requires CString(text) == white + (sign + t) && CaseBlind.WhiteSpace(white) && sign in ["", "+", "-"]
    requires t != [] && t[0] !in "+-" && !White(t[0])
    requires u == (if HasHexMark(t) then t[2..] else t) && u != [] && HexValue(u[0]).Some? && HexRun(u, 0) == n
    ensures Strtoul16(text) == Some(SizeValue(sign, n))
  {
    SignReads(sign, t);
    WhiteThenMore(white, sign + t);
    StrtoulFrom(text, sign + t, t, u, n, sign == "-");
  }

  lemma BareReads(s: Size, n: nat, t: string)
    requires IsSize(s, n) && t == s.mark + (s.digits + CString(s.junk))
    ensures var u := if HasHexMark(t) then t[2..] else t;
            u == s.digits + CString(s.junk) && HexValue(u[0]).Some? && HexRun(u, 0) == n && t[0] !in "+-"
            && !White(t[0])
  {
    CStringBegins(s.junk);
    MarkedReads(s.mark, s.digits, n, CString(s.junk));
  }

  lemma SizeReads(s: Size, n: nat)
    requires IsSize(s, n)
    ensures Strtoul16(SizeText(s)) == Some(SizeValue(s.sign, n))
  {
    var u := s.digits + CString(s.junk);
    var t := s.mark + u;
    NumberText(s, n, CString(s.junk));
    BareReads(s, n, t);
    SignedReads(SizeText(s), s.white, s.sign, t, u, n);
  }

  lemma NumberText(s: Size, n: nat, junk: string)
    requires IsSize(s, n) && junk == CString(s.junk)
    ensures CString(SizeText(s)) == s.white + (s.sign + (s.mark + (s.digits + junk)))
  {
    NumeralBegins(s.digits, n);
    assert HexValue('\0') == None;
    CStringAfter(s.digits, s.junk);
    CStringAfter(s.mark, s.digits + s.junk);
    CStringAfter(s.sign, s.mark + (s.digits + s.junk));
    CStringAfter(s.white, s.sign + (s.mark + (s.digits + s.junk)));
  }

  /** The digits at the start of a text. */
  lemma {:induction false} DigitsUpTo(s: string, i: nat) returns (j: nat)
    requires i <= |s| && forall k :: 0 <= k < i ==> HexValue(s[k]).Some?
    ensures i <= j <= |s| && (forall k :: 0 <= k < j ==> HexValue(s[k]).Some?) && (j < |s| ==> HexValue(s[j]) == None)
    decreases |s| - i
  {
    if i < |s| && HexValue(s[i]).Some? {
      j := DigitsUpTo(s, i + 1);
    } else {
      j := i;
    }
  }

  lemma {:induction false} NumeralOf(digits: string) returns (n: nat)
    requires forall k :: 0 <= k < |digits| ==> HexValue(digits[k]).Some?
    ensures IsNumeral(digits, n)
    decreases |digits|
  {
    if digits == [] {
      n := 0;
    } else {
      var last := |digits| - 1;
      var high := NumeralOf(digits[..last]);
      var d := HexValue(digits[last]).value;
      DigitValue(digits[last], d);
      n := high * 16 + d;
      assert n % 16 == d && n / 16 == high;
    }
  }

  lemma CutNumeral(u: string) returns (digits: string, n: nat, junk: string)
    requires u != [] && HexValue(u[0]).Some?
    ensures u == digits + junk && digits != [] && IsNumeral(digits, n) && !BeginsWithDigit(junk)
  {
    var j := DigitsUpTo(u, 0);
    digits, junk := u[..j], u[j..];
    n := NumeralOf(digits);
    if junk != [] {
      DigitOrNot(junk[0]);
    }
  }

  /** A text and its characters before the first NUL. */
  lemma {:induction false} CStringOf(text: string) returns (tail: string)
    ensures text == CString(text) + tail && (tail != [] ==> tail[0] == '\0')
  {
    if text == [] || text[0] == '\0' {
      tail := text;
    } else {
      tail := CStringOf(text[1..]);
      HeadAndTail(text);
      Associate([text[0]], CString(text[1..]), tail);
    }
  }

  lemma {:induction false} WhiteInFront(s: string) returns (white: string)
    ensures s == white + SkipWhite(s) && CaseBlind.WhiteSpace(white)
  {
    if s != [] && White(s[0]) {
      var rest := WhiteInFront(s[1..]);
      white := [s[0]] + rest;
      HeadAndTail(s);
      Associate([s[0]], rest, SkipWhite(s[1..]));
    } else {
      white := [];
    }
  }

  lemma MarkOf(t: string) returns (mark: string, u: string)
    ensures u == (if HasHexMark(t) then t[2..] else t) && mark in ["", "0x", "0X"] && t == mark + u
    ensures mark == "" <==> !HasHexMark(t)
  {
    if HasHexMark(t) {
      mark, u := t[..2], t[2..];
      assert mark == [t[0], t[1]];
    } else {
      mark, u := "", t;
    }
  }

  lemma MarkInText(digits: string, junk: string)
    requires digits == "0" && junk != [] && junk[0] in "xX" && BeginsWithDigit(junk[1..])
    ensures HasHexMark(digits + junk)
  {
    DigitOrNot(junk[1]);
    assert (digits + junk)[1] == junk[0] && (digits + junk)[2] == junk[1];
  }

  lemma MarkIsMissing(digits: string, junk: string)
    requires digits != [] && !HasHexMark(digits + junk)
    ensures !(digits == "0" && junk != [] && junk[0] in "xX" && BeginsWithDigit(junk[1..]))
  {
    if digits == "0" && junk != [] && junk[0] in "xX" && BeginsWithDigit(junk[1..]) {
      MarkInText(digits, junk);
    }
  }

  /** Behind the white space: a sign, a mark and a number. */
  lemma NumberHasText(s: string) returns (size: Size, n: nat)
    requires var t := if s != [] && (s[0] == '-' || s[0] == '+') then s[1..] else s;
             var u := if HasHexMark(t) then t[2..] else t;
             u != [] && HexValue(u[0]).Some?
    ensures IsSize(size, n) && size.white == "" && s == size.sign + (size.mark + (size.digits + size.junk))
  {
    var sign := if s != [] && (s[0] == '-' || s[0] == '+') then s[..1] else "";
    var t := if sign != "" then s[1..] else s;
    if sign != "" {
      assert sign == [s[0]];
    }
    assert s == sign + t;
    var mark, u := MarkOf(t);
    var digits, m, junk := CutNumeral(u);
    if mark == "" {
      MarkIsMissing(digits, junk);
    }
    size, n := Size("", sign, mark, digits, junk), m;
  }

  lemma TailOfJunk(size: Size, n: nat, white: string, tail: string)
    requires IsSize(size, n) && CaseBlind.WhiteSpace(white) && (tail != [] ==> tail[0] == '\0')
    ensures IsSize(size.(white := white, junk := size.junk + tail), n)
  {
    var junk := size.junk + tail;
    NulIsNoDigit();
    if size.junk == [] {
      assert junk == tail;
    } else {
      assert junk[0] == size.junk[0] && junk[1..] == size.junk[1..] + tail;
      assert size.junk[1..] == [] ==> junk[1..] == tail;
    }
  }

  lemma TextOfParts(a: string, b: string, c: string, d: string, e: string, f: string)
    ensures (a + (b + (c + (d + e)))) + f == a + (b + (c + (d + (e + f))))
  {
    Associate(a, b + (c + (d + e)), f);
    Associate(b, c + (d + e), f);
    Associate(c, d + e, f);
    Associate(d, e, f);
  }

  lemma SizeHasText(line: string) returns (size: Size, n: nat)
    requires Strtoul16(line).Some?
    ensures IsSize(size, n) && line == SizeText(size)
  {
    var tail := CStringOf(line);
    var white := WhiteInFront(CString(line));
    var bare, m := NumberHasText(SkipWhite(CString(line)));
    TailOfJunk(bare, m, white, tail);
    TextOfParts(white, bare.sign, bare.mark, bare.digits, bare.junk, tail);
    size, n := bare.(white := white, junk := bare.junk + tail), m;
  }

  /** A line has a size exactly if it has this form. */
  lemma SizeExactly(line: string, value: nat)
    ensures Strtoul16(line) == Some(value) <==> HasSize(line, value)
  {
    if Strtoul16(line) == Some(value) {
      var size, n := SizeHasText(line);
      SizeReads(size, n);
    } else if HasSize(line, value) {
      var size: Size, n: nat :| line == SizeText(size) && IsSize(size, n) && value == SizeValue(size.sign, n);
      SizeReads(size, n);
    }
  }

  // ---------------------------------------------------------------- streams

  /** A line, before this text. */
  predicate IsLine(line: string, after: string) {
    line != [] && '\n' !in line[..|line| - 1] && (line[|line| - 1] == '\n' || after == [])
  }

  /** From the start of a size line: nothing; a line without a size; a size and fewer bytes than it says, or no line end
      behind them; a chunk and more; or a size of zero and the trailer. */
  datatype Coded =
    | Ended
    | Sizeless(line: string, after: string)
    | Short(line: string, size: nat, part: string)
    | Unended(line: string, payload: string, after: string)
    | OneChunk(line: string, payload: string, next: Coded)
    | Last(line: string, trailer: Trailer)

  /** Nothing; a line that is too long; a field and more; or the empty line. */
  datatype Trailer =
    | Missing
    | TooLong(line: string, after: string)
    | OneField(line: string, next: Trailer)
    | Complete(after: string)

  function TrailerOf(t: Trailer): string {
    match t
    case Missing => []
    case TooLong(line, after) => line + after
    case OneField(line, next) => line + TrailerOf(next)
    case Complete(after) => CRLF + after
  }

  function CodedText(c: Coded): string {
    match c
    case Ended => []
    case Sizeless(line, after) => line + after
    case Short(line, _, part) => line + part
    case Unended(line, payload, after) => line + (payload + after)
    case OneChunk(line, payload, next) => line + (payload + (CRLF + CodedText(next)))
    case Last(line, trailer) => line + TrailerOf(trailer)
  }

  predicate IsTrailer(t: Trailer) {
    match t
    case Missing => true
    case TooLong(line, after) => IsLine(line, after) && !(CRLF <= line) && |line| > HEADER_MAX_LENGTH
    case OneField(line, next) =>
      IsLine(line, TrailerOf(next)) && !(CRLF <= line) && |line| <= HEADER_MAX_LENGTH && IsTrailer(next)
    case Complete(_) => true
  }

  /** The greatest number is no size. */
  ghost predicate IsCoded(c: Coded) {
    match c
    case Ended => true
    case Sizeless(line, after) => IsLine(line, after) && forall v: nat :: HasSize(line, v) ==> v == ULONG_MAX
    case Short(line, size, part) => IsLine(line, part) && HasSize(line, size) && |part| < size < ULONG_MAX
    case Unended(line, payload, after) =>
      IsLine(line, payload + after) && HasSize(line, |payload|) && 0 < |payload| < ULONG_MAX && !(CRLF <= after)
    case OneChunk(line, payload, next) =>
      IsLine(line, payload + (CRLF + CodedText(next))) && HasSize(line, |payload|) && 0 < |payload| < ULONG_MAX
      && IsCoded(next)
    case Last(line, trailer) => IsLine(line, TrailerOf(trailer)) && HasSize(line, 0) && IsTrailer(trailer)
  }

  function TrailerMeans(t: Trailer): Reading {
    match t
    case Missing => FAILED
    case TooLong(_, _) => FAILED
    case OneField(line, next) => TrailerMeans(next).(fields := FieldsOf(line) + TrailerMeans(next).fields)
    case Complete(after) => Reading(true, [], [], after)
  }

  /** Only complete chunks up to a complete trailer succeed; of a short or unended chunk the bytes are passed on. */
  function CodedMeans(c: Coded): Reading {
    match c
    case Ended => FAILED
    case Sizeless(_, _) => FAILED
    case Short(_, _, part) => Reading(false, part, [], [])
    case Unended(_, payload, _) => Reading(false, payload, [], [])
    case OneChunk(_, payload, next) => CodedMeans(next).(content := payload + CodedMeans(next).content)
    case Last(_, trailer) => TrailerMeans(trailer)
  }

  lemma LineReads(line: string, after: string)
    requires IsLine(line, after)
    ensures FirstLine(line + after) == line && (line + after)[|line|..] == after && line + after != []
  {
    FirstLineIs(line, after);
  }

  /** Only a line end itself reads as one. */
  lemma LineEndIs(s: string)
    ensures CString(FirstLine(s)) == CRLF <==> CRLF <= s
    ensures CRLF <= s ==> FirstLine(s) == CRLF
  {
    if CRLF <= s {
      assert s == CRLF + s[2..];
      CrlfIsFirst(s[2..]);
    } else if CString(FirstLine(s)) == CRLF {
      LineEndBegins(s);
    }
  }

  lemma LineEndBegins(s: string)
    requires CString(FirstLine(s)) == CRLF
    ensures CRLF <= s
  {
    var tail := CStringOf(FirstLine(s));
    assert FirstLine(s)[..2] == CRLF && s[..2] == FirstLine(s)[..2];
  }

  lemma {:induction false} TrailerIsMeant(t: Trailer)
    requires IsTrailer(t)
    ensures TrailerFrom(TrailerOf(t)) == TrailerMeans(t)
  {
    match t
    case Missing =>
    case TooLong(line, after) =>
      LineReads(line, after);
      LineEndOf(line, after);
    case OneField(line, next) =>
      LineReads(line, TrailerOf(next));
      LineEndOf(line, TrailerOf(next));
      TrailerIsMeant(next);
    case Complete(after) =>
      LineEndIs(CRLF + after);
      assert (CRLF + after)[2..] == after;
  }

  lemma LineEndOf(line: string, after: string)
    requires IsLine(line, after) && !(CRLF <= line)
    ensures CString(FirstLine(line + after)) != CRLF
  {
    LineReads(line, after);
    LineEndIs(line + after);
    if CRLF <= line + after {
      LineEndInLine(line, after);
    }
  }

  lemma LineEndInLine(line: string, after: string)
    requires IsLine(line, after) && CRLF <= line + after
    ensures CRLF <= line
  {
    assert line[0] == (line + after)[0];
    assert |line| > 1 && line[1] == (line + after)[1];
  }

  lemma PayloadCuts(payload: string, after: string)
    ensures (payload + after)[..|payload|] == payload && (payload + after)[|payload|..] == after
  {
  }

  /** A size, and the bytes it announces. */
  lemma ChunkIsRead(line: string, payload: string, after: string)
    requires IsLine(line, payload + after) && HasSize(line, |payload|) && 0 < |payload| < ULONG_MAX
    ensures ChunksFrom(line + (payload + after))
            == var end := FirstLine(after);
               if CString(end) != CRLF then Reading(false, payload, [], [])
               else ChunksFrom(after[|end|..]).(content := payload + ChunksFrom(after[|end|..]).content)
  {
    SizeExactly(line, |payload|);
    LineReads(line, payload + after);
    PayloadCuts(payload, after);
  }

  lemma SizelessIsRead(line: string, after: string)
    requires IsLine(line, after) && forall v: nat :: HasSize(line, v) ==> v == ULONG_MAX
    ensures ChunksFrom(line + after) == FAILED
  {
    LineReads(line, after);
    match Strtoul16(line)
    case None =>
    case Some(v) => SizeExactly(line, v);
  }

  lemma ShortIsRead(line: string, size: nat, part: string)
    requires IsLine(line, part) && HasSize(line, size) && |part| < size < ULONG_MAX
    ensures ChunksFrom(line + part) == Reading(false, part, [], [])
  {
    SizeExactly(line, size);
    LineReads(line, part);
  }

  lemma LastIsRead(line: string, after: string)
    requires IsLine(line, after) && HasSize(line, 0)
    ensures ChunksFrom(line + after) == TrailerFrom(after)
  {
    SizeExactly(line, 0);
    LineReads(line, after);
  }

  /** Reading a coded stream gives what it means. */
  lemma {:induction false} CodedIsMeant(c: Coded)
    requires IsCoded(c)
    ensures ChunksFrom(CodedText(c)) == CodedMeans(c)
  {
    match c
    case Ended =>
    case Sizeless(line, after) => SizelessIsRead(line, after);
    case Short(line, size, part) => ShortIsRead(line, size, part);
    case Unended(line, payload, after) =>
      ChunkIsRead(line, payload, after);
      LineEndIs(after);
    case OneChunk(line, payload, next) =>
      ChunkIsRead(line, payload, CRLF + CodedText(next));
      LineEndIs(CRLF + CodedText(next));
      assert (CRLF + CodedText(next))[2..] == CodedText(next);
      CodedIsMeant(next);
    case Last(line, trailer) =>
      LastIsRead(line, TrailerOf(trailer));
      TrailerIsMeant(trailer);
  }

  // ---------------------------------------------------------------- every stream

  lemma {:induction false} CutLine(s: string) returns (line: string, after: string)
    requires s != []
    ensures s == line + after && IsLine(line, after) && |after| < |s|
  {
    if s[0] == '\n' || |s| == 1 {
      line, after := s[..1], s[1..];
    } else {
      var rest: string;
      rest, after := CutLine(s[1..]);
      line := [s[0]] + rest;
      assert line[..|line| - 1] == [s[0]] + rest[..|rest| - 1];
      HeadAndTail(s);
    }
  }

  lemma {:induction false} EveryTrailer(s: string) returns (t: Trailer)
    ensures IsTrailer(t) && TrailerOf(t) == s
    decreases |s|
  {
    if s == [] {
      t := Missing;
    } else if CRLF <= s {
      assert s == CRLF + s[2..];
      t := Complete(s[2..]);
    } else {
      var line, after := CutLine(s);
      assert !(CRLF <= line) by {
        assert line == s[..|line|];
      }
      if |line| > HEADER_MAX_LENGTH {
        t := TooLong(line, after);
      } else {
        var next := EveryTrailer(after);
        t := OneField(line, next);
      }
    }
  }

  /** Every stream is a coded one, so that `CodedIsMeant` speaks of all of them. */
  lemma {:induction false} EveryStream(s: string) returns (c: Coded)
    ensures IsCoded(c) && CodedText(c) == s
    decreases |s|
  {
    if s == [] {
      c := Ended;
    } else {
      var line, after := CutLine(s);
      match Strtoul16(line)
      case None =>
        NoSizeThere(line);
        c := Sizeless(line, after);
      case Some(n) =>
        OnlySize(line, n);
        if n >= ULONG_MAX {
          c := Sizeless(line, after);
        } else if n == 0 {
          var t := EveryTrailer(after);
          c := Last(line, t);
        } else if |after| < n {
          c := Short(line, n, after);
        } else {
          c := EveryChunk(line, n, after);
        }
    }
  }

  lemma NoSizeThere(line: string)
    requires Strtoul16(line) == None
    ensures forall v: nat :: !HasSize(line, v)
  {
    forall v: nat
      ensures !HasSize(line, v)
    {
      SizeExactly(line, v);
    }
  }

  lemma OnlySize(line: string, n: nat)
    requires Strtoul16(line) == Some(n)
    ensures n <= ULONG_MAX && HasSize(line, n) && forall v: nat :: HasSize(line, v) ==> v == n
  {
    SizeExactly(line, n);
    forall v: nat | HasSize(line, v)
      ensures v == n
    {
      SizeExactly(line, v);
    }
  }

  lemma {:induction false} EveryChunk(line: string, n: nat, after: string) returns (c: Coded)
    requires IsLine(line, after) && HasSize(line, n) && 0 < n < ULONG_MAX && n <= |after|
    ensures IsCoded(c) && CodedText(c) == line + after
    decreases |line + after|, 0
  {
    var payload, rest := after[..n], after[n..];
    assert after == payload + rest;
    if CRLF <= rest {
      assert rest == CRLF + rest[2..];
      var next := EveryStream(rest[2..]);
      c := OneChunk(line, payload, next);
    } else {
      c := Unended(line, payload, rest);
    }
  }
}
