/**
  The chunked transfer coding: what a coded stream means, and what the writer puts on the wire.
 */
module ChunkedSpec {
  import opened Wrappers
  import opened HttpText
  import opened Sequences
  import Splitting
  import opened QueryString
  import opened HeaderField
  import opened Streams
  import opened Wire

  const ULONG_MAX: nat := 0xFFFF_FFFF_FFFF_FFFF

  // ---------------------------------------------------------------- numbers on a size line

  /** What a C string function sees. */
  function CString(s: string): string {
    if s == [] || s[0] == '\0' then [] else [s[0]] + CString(s[1..])
  }

  /** The value of the hexadecimal digits at the start, after `acc`. */
  function HexRun(s: string, acc: nat): nat {
    if s != [] && HexValue(s[0]).Some? then HexRun(s[1..], acc * 16 + HexValue(s[0]).value) else acc
  }

  predicate HasHexMark(s: string) {
    |s| > 2 && s[0] == '0' && (s[1] == 'x' || s[1] == 'X') && HexValue(s[2]).Some?
  }

  /** `strtoul` to base 16 on a 64-bit system: white space, a sign, a mark and digits; None when there is no
      digit.  A value that does not fit is ULONG_MAX, a negative one wraps around. */
  function Strtoul16(text: string): Option<nat> {
    var s := SkipWhite(CString(text));
    var t := if s != [] && (s[0] == '-' || s[0] == '+') then s[1..] else s;
    var u := if HasHexMark(t) then t[2..] else t;
    if u == [] || HexValue(u[0]) == None then None
    else
      var v := HexRun(u, 0);
      Some(if v > ULONG_MAX then ULONG_MAX else if s[0] == '-' && v > 0 then ULONG_MAX + 1 - v else v)
  }

  // ---------------------------------------------------------------- reading

  /** What reading a coded stream gives: success, the content passed on, the trailer fields, and what is
      left of the stream after success. */
  datatype Reading = Reading(ok: bool, content: string, fields: seq<Param>, rest: string)

  const FAILED := Reading(false, [], [], [])

  function FieldsOf(line: string): seq<Param> {
    if |line| < 2 then [] else
    match FieldOf(line[..|line| - 2])
    case None => []
    case Some(field) => [field]
  }

  function TrailerFrom(s: string): Reading
    decreases |s|
  {
    if s == [] then FAILED
    else
      var line := FirstLine(s);
      var rest := s[|line|..];
      if CString(line) == CRLF then Reading(true, [], [], rest)
      else if |line| > HEADER_MAX_LENGTH then FAILED
      else
        var more := TrailerFrom(rest);
        more.(fields := FieldsOf(line) + more.fields)
  }

  /** The stream from the start of a size line. */
  function ChunksFrom(s: string): Reading
    decreases |s|
  {
    if s == [] then FAILED
    else
      var line := FirstLine(s);
      var after := s[|line|..];
      match Strtoul16(line)
      case None => FAILED
      case Some(n) =>
        if n == ULONG_MAX then FAILED
        else if n == 0 then TrailerFrom(after)
        else if |after| < n then Reading(false, after, [], [])
        else
          var end := FirstLine(after[n..]);
          if CString(end) != CRLF then Reading(false, after[..n], [], [])
          else
            var more := ChunksFrom(after[n..][|end|..]);
            more.(content := after[..n] + more.content)
  }

  // ---------------------------------------------------------------- writing

  function Chunk(payload: string): string {
    if payload == [] then [] else Hex(|payload|) + CRLF + payload + CRLF
  }

  /** What a content provider may do with the sink. */
  datatype Call = Write(data: string) | Done(trailer: seq<Param>)

  function TrailerText(trailer: seq<Param>): string {
    if trailer == [] then [] else FieldLine(trailer[0]) + TrailerText(trailer[1..])
  }

  function CallText(call: Call): string {
    match call
    case Write(data) => Chunk(data)
    case Done(trailer) => "0\r\n" + TrailerText(trailer) + CRLF
  }

  /** Whether more data is expected after a call. */
  predicate Expecting(call: Call) {
    call.Write? && call.data != []
  }

  function CallsText(calls: seq<Call>): string {
    if calls == [] then [] else CallText(calls[0]) + CallsText(calls[1..])
  }

  predicate ExpectingAfter(calls: seq<Call>, before: bool) {
    if calls == [] then before else ExpectingAfter(calls[1..], Expecting(calls[0]))
  }

  /** One call of the provider: what it does with the sink, and whether it wants to go on. */
  datatype Round = Round(calls: seq<Call>, keepGoing: bool)

  datatype Result = Success | WriteError | Canceled

  /** The text written and the result when no write fails; the server shuts down after `rounds` rounds. */
  function Written(script: seq<Round>, rounds: nat, expecting: bool): (string, Result) {
    if !expecting || rounds == 0 then ([], Success)
    else if script == [] then ([], Canceled)
    else
      var text := CallsText(script[0].calls);
      if !script[0].keepGoing then (text, Canceled)
      else
        var (more, result) := Written(script[1..], rounds - 1, ExpectingAfter(script[0].calls, true));
        (text + more, result)
  }

  // ---------------------------------------------------------------- sizes parse back

  lemma {:induction false} CStringOfPlain(s: string)
    requires '\0' !in s
    ensures CString(s) == s
  {
    if s != [] {
      CStringOfPlain(s[1..]);
    }
  }

  lemma {:induction false} DigitsAreHex(n: nat)
    ensures forall i :: 0 <= i < |Digits(n)| ==> HexValue(Digits(n)[i]).Some?
  {
    if n > 0 {
      DigitsAreHex(n / 16);
    }
  }

  lemma {:induction false} HexRunOfDigits(n: nat, t: string)
    ensures HexRun(Digits(n) + t, 0) == HexRun(t, n)
  {
    if n == 0 {
      assert [] + t == t;
    } else {
      var d := LowerHexDigit(n % 16);
      HexRunOfDigits(n / 16, [d] + t);
      Associate(Digits(n / 16), [d], t);
      OneDigitRun(d, n % 16, t, n / 16);
      assert n / 16 * 16 + n % 16 == n;
    }
  }

  lemma OneDigitRun(c: char, d: nat, t: string, acc: nat)
    requires HexValue(c) == Some(d)
    ensures HexRun([c] + t, acc) == HexRun(t, acc * 16 + d)
  {
    assert ([c] + t)[1..] == t;
  }

  lemma HexNumeral(n: nat)
    ensures Hex(n) != [] && HexRun(Hex(n) + CRLF, 0) == n
    ensures forall i :: 0 <= i < |Hex(n)| ==> HexValue(Hex(n)[i]).Some?
  {
    DigitsAreHex(n);
    if n > 0 {
      HexRunOfDigits(n, CRLF);
    } else {
      assert ("0" + CRLF)[1..] == CRLF;
    }
  }

  lemma StrtoulOfDigits(s: string)
    requires s != [] && HexValue(s[0]).Some? && '\0' !in s && 'x' !in s && 'X' !in s && HexRun(s, 0) <= ULONG_MAX
    ensures Strtoul16(s) == Some(HexRun(s, 0))
  {
    CStringOfPlain(s);
    assert SkipWhite(s) == s;
  }

  /** A written size line is read as the size. */
  lemma SizeReadsBack(n: nat)
    requires n < ULONG_MAX
    ensures Strtoul16(Hex(n) + CRLF) == Some(n)
  {
    HexNumeral(n);
    var s := Hex(n) + CRLF;
    forall c | c in s
      ensures c != '\0' && c != 'x' && c != 'X'
    {
    }
    StrtoulOfDigits(s);
  }

  lemma SizeLineIsFirst(n: nat, rest: string)
    ensures FirstLine((Hex(n) + CRLF) + rest) == Hex(n) + CRLF
  {
    HexNumeral(n);
    var line := Hex(n) + CRLF;
    assert forall i :: 0 <= i < |Hex(n)| ==> line[i] != '\n';
    FirstLineIs(line, rest);
  }

  lemma CrlfIsFirst(rest: string)
    ensures FirstLine(CRLF + rest) == CRLF && CString(CRLF) == CRLF
  {
    FirstLineIs(CRLF, rest);
    CStringOfPlain(CRLF);
  }

  // ---------------------------------------------------------------- the round trip

  /** One written chunk is read, and reading goes on after it. */
  lemma ChunkReadsBack(p: string, rest: string)
    requires 0 < |p| < ULONG_MAX
    ensures var more := ChunksFrom(rest); ChunksFrom(Chunk(p) + rest) == more.(content := p + more.content)
  {
    var line, after := Hex(|p|) + CRLF, p + (CRLF + rest);
    var s := Chunk(p) + rest;
    RegroupChunk(Hex(|p|), CRLF, p, rest);
    SizeLineIsFirst(|p|, after);
    SizeReadsBack(|p|);
    CrlfIsFirst(rest);
    assert s[|line|..] == after && after[..|p|] == p && after[|p|..] == CRLF + rest;
    assert (CRLF + rest)[2..] == rest;
  }

  lemma RegroupChunk(a: string, b: string, c: string, d: string)
    ensures (a + b + c + b) + d == (a + b) + (c + (b + d))
  {
  }

  function FieldLine(field: Param): string {
    field.key + ": " + field.value + CRLF
  }

  /** A trailer field that is read as it was written. */
  predicate PlainField(field: Param) {
    Splitting.Piece(field.key, ':') && PlainValue(field.key, field.value)
    && '\n' !in field.key && '\n' !in field.value && |FieldLine(field)| <= HEADER_MAX_LENGTH
  }

  predicate PlainFields(trailer: seq<Param>) {
    trailer == [] || (PlainField(trailer[0]) && PlainFields(trailer[1..]))
  }

  lemma FieldLineIsFirst(field: Param, rest: string)
    requires PlainField(field)
    ensures FirstLine(FieldLine(field) + rest) == FieldLine(field)
    ensures CString(FieldLine(field)) != CRLF && FieldsOf(FieldLine(field)) == [field]
  {
    var line, text := FieldLine(field), field.key + ": " + field.value;
    assert line == text + CRLF && line[..|line| - 2] == text && line[..|line| - 1] == text + ['\r'];
    FieldReadsBack(field.key, field.value);
    FirstLineIs(line, rest);
    NotAnEmptyLine(line);
  }

  lemma NotAnEmptyLine(line: string)
    requires |line| > 2 && line[1] != '\n'
    ensures CString(line) != CRLF
  {
    assert |CString(line)| > 1 ==> CString(line)[1] == line[1];
  }

  lemma NoFields(rest: string)
    ensures TrailerFrom(CRLF + rest) == Reading(true, [], [], rest)
  {
    CrlfIsFirst(rest);
    assert (CRLF + rest)[2..] == rest;
  }

  lemma {:induction false} TrailerReadsBack(trailer: seq<Param>, rest: string)
    requires PlainFields(trailer)
    ensures TrailerFrom(TrailerText(trailer) + (CRLF + rest)) == Reading(true, [], trailer, rest)
  {
    if trailer == [] {
      NoFields(rest);
      assert TrailerText(trailer) + (CRLF + rest) == CRLF + rest;
    } else {
      TrailerReadsBack(trailer[1..], rest);
      FieldThenMore(trailer[0], TrailerText(trailer[1..]) + (CRLF + rest));
      Associate(FieldLine(trailer[0]), TrailerText(trailer[1..]), CRLF + rest);
      HeadAndTail(trailer);
    }
  }

  lemma FieldThenMore(field: Param, more: string)
    requires PlainField(field)
    ensures TrailerFrom(FieldLine(field) + more) == TrailerFrom(more).(fields := [field] + TrailerFrom(more).fields)
  {
    var line := FieldLine(field);
    FieldLineIsFirst(field, more);
    assert (line + more)[|line|..] == more;
  }

  /** A size line of zero is followed by the trailer. */
  lemma ZeroSizeLine(line: string, after: string)
    requires line != [] && FirstLine(line + after) == line && Strtoul16(line) == Some(0)
    ensures ChunksFrom(line + after) == TrailerFrom(after)
  {
    assert (line + after)[|line|..] == after;
  }

  lemma LastChunkText(trailer: seq<Param>, rest: string)
    ensures CallText(Done(trailer)) + rest == (Hex(0) + CRLF) + (TrailerText(trailer) + (CRLF + rest))
  {
    assert Hex(0) + CRLF == "0\r\n";
    RegroupLast("0\r\n", TrailerText(trailer), CRLF, rest);
  }

  lemma RegroupLast(a: string, b: string, c: string, d: string)
    ensures (a + b + c) + d == a + (b + (c + d))
  {
  }

  lemma LastChunkReadsBack(trailer: seq<Param>, rest: string)
    requires PlainFields(trailer)
    ensures ChunksFrom(CallText(Done(trailer)) + rest) == Reading(true, [], trailer, rest)
  {
    var after := TrailerText(trailer) + (CRLF + rest);
    LastChunkText(trailer, rest);
    SizeLineIsFirst(0, after);
    SizeReadsBack(0);
    ZeroSizeLine(Hex(0) + CRLF, after);
    TrailerReadsBack(trailer, rest);
  }

  /** The data a provider writes. */
  function DataOf(calls: seq<Call>): seq<string> {
    if calls == [] then [] else (if calls[0].Write? then [calls[0].data] else []) + DataOf(calls[1..])
  }

  predicate OnlyWrites(calls: seq<Call>) {
    calls == [] || (calls[0].Write? && OnlyWrites(calls[1..]))
  }

  /** Sizes that `strtoul` can tell from an error, and trailers that reading leaves as they are. */
  predicate Sound(calls: seq<Call>) {
    calls == [] ||
    ((match calls[0]
      case Write(data) => |data| < ULONG_MAX
      case Done(trailer) => PlainFields(trailer))
     && Sound(calls[1..]))
  }

  lemma WriteReadsBack(p: string, rest: string)
    requires |p| < ULONG_MAX
    ensures var more := ChunksFrom(rest); ChunksFrom(Chunk(p) + rest) == more.(content := p + more.content)
  {
    if p == [] {
      assert Chunk(p) + rest == rest && [] + ChunksFrom(rest).content == ChunksFrom(rest).content;
    } else {
      ChunkReadsBack(p, rest);
    }
  }

  lemma FirstCallText(calls: seq<Call>, rest: string)
    requires calls != []
    ensures CallsText(calls) + rest == CallText(calls[0]) + (CallsText(calls[1..]) + rest)
  {
    Associate(CallText(calls[0]), CallsText(calls[1..]), rest);
  }

  /** Writes are read as their data joined, and reading goes on after them. */
  lemma {:induction false} WritesReadBack(calls: seq<Call>, rest: string)
    requires OnlyWrites(calls) && Sound(calls)
    ensures var more := ChunksFrom(rest);
            ChunksFrom(CallsText(calls) + rest) == more.(content := Concat(DataOf(calls)) + more.content)
  {
    if calls == [] {
      assert CallsText(calls) + rest == rest && [] + ChunksFrom(rest).content == ChunksFrom(rest).content;
    } else {
      FirstCallText(calls, rest);
      WriteReadsBack(calls[0].data, CallsText(calls[1..]) + rest);
      WritesReadBack(calls[1..], rest);
      Associate(calls[0].data, Concat(DataOf(calls[1..])), ChunksFrom(rest).content);
    }
  }

  /** Reading what was written gives the data joined and the trailer, and stops at the byte after the final
      line end. */
  lemma BodyReadsBack(calls: seq<Call>, trailer: seq<Param>, rest: string)
    requires OnlyWrites(calls) && Sound(calls) && PlainFields(trailer)
    ensures ChunksFrom(CallsText(calls) + (CallText(Done(trailer)) + rest))
            == Reading(true, Concat(DataOf(calls)), trailer, rest)
  {
    LastChunkReadsBack(trailer, rest);
    WritesReadBack(calls, CallText(Done(trailer)) + rest);
    NothingMore(Concat(DataOf(calls)));
  }

  lemma NothingMore(text: string)
    ensures text + [] == text
  {
  }

  // ---------------------------------------------------------------- which calls read back

  predicate AllEmpty(calls: seq<Call>) {
    calls == [] || (calls[0] == Write([]) && AllEmpty(calls[1..]))
  }

  /** Writes, empty or not, then `done` with this trailer, and nothing more but writes of nothing. */
  predicate Closed(calls: seq<Call>, trailer: seq<Param>) {
    calls != []
    && if calls[0].Done? then calls[0].trailer == trailer && AllEmpty(calls[1..]) else Closed(calls[1..], trailer)
  }

  /** Whatever follows on the stream, reading gives this content and this trailer and leaves what follows. */
  ghost predicate ReadsBack(text: string, content: string, trailer: seq<Param>) {
    forall rest: string :: ChunksFrom(text + rest) == Reading(true, content, trailer, rest)
  }

  lemma {:induction false} AllEmptyText(calls: seq<Call>)
    ensures CallsText(calls) == [] <==> AllEmpty(calls)
    ensures AllEmpty(calls) ==> Concat(DataOf(calls)) == []
  {
    if calls != [] {
      AllEmptyText(calls[1..]);
      assert calls[0].Done? ==> |CallText(calls[0])| > 0;
    }
  }

  lemma DoneFirstReadsBack(trailer: seq<Param>, more: seq<Call>, wanted: seq<Param>)
    requires PlainFields(trailer)
    ensures ReadsBack(CallText(Done(trailer)) + CallsText(more), Concat(DataOf(more)), wanted)
            <==> trailer == wanted && AllEmpty(more)
  {
    var text, after := CallText(Done(trailer)), CallsText(more);
    AllEmptyText(more);
    forall rest: string
      ensures ChunksFrom((text + after) + rest) == Reading(true, [], trailer, after + rest)
    {
      Associate(text, after, rest);
      LastChunkReadsBack(trailer, after + rest);
    }
    if ReadsBack(text + after, Concat(DataOf(more)), wanted) {
      assert ChunksFrom((text + after) + []) == Reading(true, Concat(DataOf(more)), wanted, []);
      NothingMore(after);
    }
    assert forall rest: string :: [] + rest == rest;
  }

  lemma WriteFirstReadsBack(p: string, text: string, content: string, trailer: seq<Param>)
    requires |p| < ULONG_MAX
    ensures ReadsBack(Chunk(p) + text, p + content, trailer) <==> ReadsBack(text, content, trailer)
  {
    forall rest: string
      ensures ChunksFrom((Chunk(p) + text) + rest) == Reading(true, p + content, trailer, rest)
              <==> ChunksFrom(text + rest) == Reading(true, content, trailer, rest)
    {
      Associate(Chunk(p), text, rest);
      WriteReadsBack(p, text + rest);
      SamePrefix(p, content, ChunksFrom(text + rest).content);
    }
  }

  lemma SamePrefix(p: string, a: string, b: string)
    ensures p + a == p + b <==> a == b
  {
    assert (p + a)[|p|..] == a && (p + b)[|p|..] == b;
  }

  /** The exact condition: the text of the calls reads back as their data and the trailer exactly when the
      calls are writes closed by one `done`. */
  lemma {:induction false} CallsReadBack(calls: seq<Call>, trailer: seq<Param>)
    requires Sound(calls)
    ensures ReadsBack(CallsText(calls), Concat(DataOf(calls)), trailer) <==> Closed(calls, trailer)
  {
    if calls == [] {
      assert [] + [] == CallsText(calls) + [] && !ChunksFrom([]).ok;
    } else {
      match calls[0]
      case Done(t) =>
        assert DataOf(calls) == DataOf(calls[1..]);
        DoneFirstReadsBack(t, calls[1..], trailer);
      case Write(p) =>
        CallsReadBack(calls[1..], trailer);
        WriteFirstReadsBack(p, CallsText(calls[1..]), Concat(DataOf(calls[1..])), trailer);
    }
  }

  // ---------------------------------------------------------------- what a provider writes

  predicate KeepsGoing(script: seq<Round>) {
    script == [] || (script[0].keepGoing && KeepsGoing(script[1..]))
  }

  /** The calls of the rounds that the writer asks for. */
  function Executed(script: seq<Round>, rounds: nat, expecting: bool): seq<Call> {
    if !expecting || rounds == 0 || script == [] then []
    else script[0].calls + Executed(script[1..], rounds - 1, ExpectingAfter(script[0].calls, true))
  }

  lemma {:induction false} CallsTextOfTwo(a: seq<Call>, b: seq<Call>)
    ensures CallsText(a + b) == CallsText(a) + CallsText(b)
  {
    if a == [] {
      assert a + b == b;
    } else {
      assert (a + b)[1..] == a[1..] + b;
      CallsTextOfTwo(a[1..], b);
      FirstCallText(a, CallsText(b));
    }
  }

  lemma {:induction false} ScriptText(script: seq<Round>, rounds: nat, expecting: bool)
    requires KeepsGoing(script)
    ensures Written(script, rounds, expecting).0 == CallsText(Executed(script, rounds, expecting))
  {
    if expecting && rounds > 0 && script != [] {
      var next := ExpectingAfter(script[0].calls, true);
      ScriptText(script[1..], rounds - 1, next);
      CallsTextOfTwo(script[0].calls, Executed(script[1..], rounds - 1, next));
    }
  }

  lemma {:induction false} EmptyWritesEnd(calls: seq<Call>, more: seq<Call>)
    requires AllEmpty(calls + more)
    ensures !ExpectingAfter(calls, false)
  {
    if calls != [] {
      assert (calls + more)[1..] == calls[1..] + more;
      EmptyWritesEnd(calls[1..], more);
    }
  }

  lemma {:induction false} ClosedSplits(calls: seq<Call>, more: seq<Call>, trailer: seq<Param>, before: bool)
    requires Closed(calls + more, trailer)
    ensures !ExpectingAfter(calls, before) || Closed(more, trailer)
  {
    if calls == [] {
      assert calls + more == more;
    } else {
      assert (calls + more)[1..] == calls[1..] + more;
      if calls[0].Done? {
        EmptyWritesEnd(calls[1..], more);
      } else {
        ClosedSplits(calls[1..], more, trailer, Expecting(calls[0]));
      }
    }
  }

  lemma {:induction false} ClosedSucceeds(script: seq<Round>, rounds: nat, trailer: seq<Param>)
    requires KeepsGoing(script) && Closed(Executed(script, rounds, true), trailer)
    ensures Written(script, rounds, true).1 == Success
  {
    if rounds > 0 {
      var next := ExpectingAfter(script[0].calls, true);
      ClosedSplits(script[0].calls, Executed(script[1..], rounds - 1, next), trailer, true);
      if next {
        ClosedSucceeds(script[1..], rounds - 1, trailer);
      }
    }
  }

  /** Round trip: what a provider that keeps going has written reads back, joined, with the trailer, leaving
      what follows on the stream, exactly when its calls are writes, empty or not, closed by one `done`.
      Then the writer has succeeded. */
  lemma WrittenReadsBack(script: seq<Round>, rounds: nat, trailer: seq<Param>)
    requires KeepsGoing(script) && Sound(Executed(script, rounds, true))
    ensures var calls := Executed(script, rounds, true);
            var (text, result) := Written(script, rounds, true);
            (ReadsBack(text, Concat(DataOf(calls)), trailer) <==> Closed(calls, trailer))
            && (Closed(calls, trailer) ==> result == Success)
  {
    ScriptText(script, rounds, true);
    CallsReadBack(Executed(script, rounds, true), trailer);
    if Closed(Executed(script, rounds, true), trailer) {
      ClosedSucceeds(script, rounds, trailer);
    }
  }

  /** A write of nothing at the end of a round, without `done`, ends the body without a last chunk: the
      writer reports success and the reader fails at the end of the stream. */
  lemma EmptyWriteTruncates(writes: seq<Call>, script: seq<Round>, rounds: nat)
    requires OnlyWrites(writes) && Sound(writes) && rounds > 0
    ensures Written([Round(writes + [Write([])], true)] + script, rounds, true) == (CallsText(writes), Success)
    ensures !ChunksFrom(CallsText(writes)).ok
  {
    var all := [Round(writes + [Write([])], true)] + script;
    LastCallDecides(writes, Write([]), true);
    CallsTextOfTwo(writes, [Write([])]);
    assert [Write([])][1..] == [] && CallsText([Write([])]) == [];
    NothingMore(CallsText(writes));
    WritesReadBack(writes, []);
  }

  lemma {:induction false} LastCallDecides(calls: seq<Call>, last: Call, before: bool)
    ensures ExpectingAfter(calls + [last], before) == Expecting(last)
  {
    if calls == [] {
      assert calls + [last] == [last] && [last][1..] == [];
    } else {
      assert (calls + [last])[1..] == calls[1..] + [last];
      LastCallDecides(calls[1..], last, Expecting(calls[0]));
    }
  }

  // ---------------------------------------------------------------- when a provider is canceled

  /** The first k rounds want to go on, and each leaves more data expected. */
  predicate GoesOn(script: seq<Round>, k: nat) {
    k <= |script| && forall i :: 0 <= i < k ==> script[i].keepGoing && ExpectingAfter(script[i].calls, true)
  }

  function RoundsText(script: seq<Round>): string {
    if script == [] then [] else CallsText(script[0].calls) + RoundsText(script[1..])
  }

  lemma FirstRounds(script: seq<Round>, k: nat)
    requires k < |script|
    ensures RoundsText(script[..k + 1]) == CallsText(script[0].calls) + RoundsText(script[1..][..k])
  {
    assert script[..k + 1][1..] == script[1..][..k];
  }

  /** The round in which the provider stops, or has no more to give, ends the writing: canceled, with all of its text
      so far, unless it says to go on and has closed its data. */
  lemma {:induction false} StopsAt(script: seq<Round>, rounds: nat, k: nat)
    requires GoesOn(script, k) && k < rounds && k < |script|
    requires !script[k].keepGoing || !ExpectingAfter(script[k].calls, true)
    ensures Written(script, rounds, true)
            == (RoundsText(script[..k + 1]), if script[k].keepGoing then Success else Canceled)
  {
    FirstRounds(script, k);
    if k > 0 {
      StopsAt(script[1..], rounds - 1, k - 1);
    } else {
      assert script[1..][..0] == [] && RoundsText([]) == [];
      NothingMore(CallsText(script[0].calls));
    }
  }

  /** Rounds that all go on end with success when no more are asked for, and canceled when there are no more. */
  lemma {:induction false} RunsOut(script: seq<Round>, rounds: nat, k: nat)
    requires GoesOn(script, k) && (k == rounds || (k < rounds && k == |script|))
    ensures Written(script, rounds, true) == (RoundsText(script[..k]), if k == rounds then Success else Canceled)
  {
    if k > 0 {
      FirstRounds(script, k - 1);
      RunsOut(script[1..], rounds - 1, k - 1);
    }
  }

  /** One of these is the case. */
  lemma {:induction false} EveryScript(script: seq<Round>, rounds: nat, k: nat) returns (n: nat)
    requires GoesOn(script, k) && k <= rounds
    ensures GoesOn(script, n) && n <= rounds
    ensures n == rounds || n == |script| || !script[n].keepGoing || !ExpectingAfter(script[n].calls, true)
    decreases |script| - k
  {
    if k < rounds && k < |script| && script[k].keepGoing && ExpectingAfter(script[k].calls, true) {
      n := EveryScript(script, rounds, k + 1);
    } else {
      n := k;
    }
  }
}
