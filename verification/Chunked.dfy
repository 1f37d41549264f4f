/**
  The chunked transfer coding as loops over streams that move as much as they like at a time.
 */
module Chunked {
  import opened Wrappers
  import opened HttpText
  import opened Sequences
  import opened QueryString
  import opened HeaderField
  import opened Streams
  import opened ChunkedSpec
  import opened Wire

  // ---------------------------------------------------------------- reading

  const RECV_BUFSIZ: nat := 4096

  // A receiver of content sees what it has taken so far and the next piece, and may refuse to go on.
  type Receiver = (string, string) -> bool

  /** Each piece has been taken after those before it. */
  ghost predicate AllTaken(receive: Receiver, pieces: seq<string>) {
    pieces == []
    || (AllTaken(receive, pieces[..|pieces| - 1])
        && receive(Concat(pieces[..|pieces| - 1]), pieces[|pieces| - 1]))
  }

  /** The receiver has taken this content, in some pieces. */
  ghost predicate Took(receive: Receiver, content: string) {
    exists pieces: seq<string> :: AllTaken(receive, pieces) && Concat(pieces) == content
  }

  lemma TookNothing(receive: Receiver)
    ensures Took(receive, [])
  {
    assert AllTaken(receive, []) && Concat([]) == [];
  }

  lemma {:induction false} ConcatOneMore(pieces: seq<string>, piece: string)
    ensures Concat(pieces + [piece]) == Concat(pieces) + piece
  {
    if pieces == [] {
      assert [piece][1..] == [] && [] + [piece] == [piece] && piece + [] == piece;
    } else {
      assert (pieces + [piece])[1..] == pieces[1..] + [piece];
      ConcatOneMore(pieces[1..], piece);
      Associate(pieces[0], Concat(pieces[1..]), piece);
    }
  }

  lemma TookOneMore(receive: Receiver, content: string, piece: string)
    requires Took(receive, content) && receive(content, piece)
    ensures Took(receive, content + piece)
  {
    var pieces: seq<string> :| AllTaken(receive, pieces) && Concat(pieces) == content;
    assert (pieces + [piece])[..|pieces|] == pieces;
    ConcatOneMore(pieces, piece);
    assert AllTaken(receive, pieces + [piece]);
  }

  /** What the receiver has refused, if it has. */
  function TextOf(refused: Option<string>): string {
    match refused
    case None => []
    case Some(text) => text
  }

  /** `len` bytes of content, in whatever pieces they come, passed on to the receiver until it refuses one. */
  method ReadContentWithLength(strm: SocketStream, len: nat, receive: Receiver, got: string)
    returns (ok: bool, content: string, ghost refused: Option<string>)
    requires strm.Valid() && Took(receive, got)
    modifies strm, strm.readBuff
    ensures strm.Valid() && old(strm.Remaining()) == content + TextOf(refused) + strm.Remaining()
    ensures |content| + |TextOf(refused)| <= len && Took(receive, got + content)
    ensures ok ==> |content| == len && refused == None
    ensures refused.Some? ==> !ok && !receive(got + content, refused.value)
    ensures old(strm.Reliable()) ==> strm.Reliable()
    ensures old(strm.Reliable()) && refused == None ==>
              if ok then |old(strm.Remaining())| >= len else strm.Remaining() == [] && |content| < len
  {
    content, refused := [], None;
    ghost var all := strm.Remaining();
    assert content + all == all && got + content == got;
    while |content| < len
      invariant strm.Valid() && all == content + strm.Remaining() && |content| <= len
      invariant Took(receive, got + content)
      invariant old(strm.Reliable()) ==> strm.Reliable()
      decreases len - |content|
    {
      var n, data := strm.Read(Least(len - |content|, RECV_BUFSIZ));
      Associate(content, data, strm.Remaining());
      Associate(got, content, data);
      if n <= 0 {
        assert content + [] == content && (n < 0 || data == []);
        return false, content, None;
      }
      if !receive(got + content, data) {
        return false, content, Some(data);
      }
      TookOneMore(receive, got + content, data);
      content := content + data;
    }
    assert content + [] == content;
    ok := true;
  }

  /** Where the reader stands: `line` has been read and is the first line of `todo`. */
  ghost predicate AtLine(reader: StreamLineReader, todo: string)
    reads reader, reader.fixedBuffer, reader.strm, reader.strm.readBuff
  {
    reader.Valid() && reader.strm.Valid() && todo != []
    && reader.Line() == FirstLine(todo) && todo == reader.Line() + reader.strm.Remaining()
  }

  function WithFields(fields: seq<Param>, r: Reading): Reading {
    r.(fields := fields + r.fields)
  }

  function WithContent(content: string, r: Reading): Reading {
    r.(content := content + r.content)
  }

  lemma NextTrailerLine(todo: string, line: string, rest: string)
    requires todo != [] && line == FirstLine(todo) && todo == line + rest
    ensures TrailerFrom(todo)
            == if CString(line) == CRLF then Reading(true, [], [], rest)
               else if |line| > HEADER_MAX_LENGTH then FAILED
               else WithFields(FieldsOf(line), TrailerFrom(rest))
  {
    assert todo[|line|..] == rest;
  }

  lemma WithFieldsTwice(a: seq<Param>, b: seq<Param>, r: Reading)
    ensures WithFields(a, WithFields(b, r)) == WithFields(a + b, r)
  {
    assert a + (b + r.fields) == (a + b) + r.fields;
  }

  method TrailerLine(line: string) returns (fields: seq<Param>)
    ensures fields == FieldsOf(line)
  {
    fields := [];
    if |line| >= 2 {
      var field := ParseHeader(line[..|line| - 2]);
      if field.Some? {
        fields := [field.value];
      }
    }
  }

  /** One line of the trailer that is not the last one. */
  method ReadField(reader: StreamLineReader, ghost todo: string, line: string)
    returns (got: bool, fields: seq<Param>, ghost rest: string)
    requires AtLine(reader, todo) && line == reader.Line() && CString(line) != CRLF && |line| <= HEADER_MAX_LENGTH
    modifies reader, reader.fixedBuffer, reader.strm, reader.strm.readBuff
    ensures reader.Valid() && reader.strm.Valid()
    ensures |rest| < |todo| && TrailerFrom(todo) == WithFields(fields, TrailerFrom(rest))
    ensures got ==> AtLine(reader, rest)
    ensures old(reader.strm.Reliable()) ==> reader.strm.Reliable() && (got || rest == [])
  {
    rest := reader.strm.Remaining();
    NextTrailerLine(todo, line, rest);
    fields := TrailerLine(line);
    got := reader.GetLine();
  }

  /** The trailer, from its first line to the empty line. */
  method ReadTrailer(reader: StreamLineReader, ghost start: string) returns (ok: bool, fields: seq<Param>)
    requires AtLine(reader, start)
    modifies reader, reader.fixedBuffer, reader.strm, reader.strm.readBuff
    ensures reader.Valid() && reader.strm.Valid()
    ensures ok ==> TrailerFrom(start) == Reading(true, [], fields, reader.strm.Remaining())
    ensures old(reader.strm.Reliable()) ==>
              reader.strm.Reliable() && ok == TrailerFrom(start).ok && fields == TrailerFrom(start).fields
  {
    fields := [];
    ghost var todo, whole := start, TrailerFrom(start);
    var line := reader.Text();
    WithNoFields(whole);
    while CString(line) != CRLF
      invariant AtLine(reader, todo) && line == reader.Line()
      invariant WithFields(fields, TrailerFrom(todo)) == whole
      invariant old(reader.strm.Reliable()) ==> reader.strm.Reliable()
      decreases |todo|
    {
      WithFieldsAlone(fields);
      if |line| > HEADER_MAX_LENGTH {
        NextTrailerLine(todo, line, reader.strm.Remaining());
        return false, fields;
      }
      var got, more;
      ghost var rest;
      got, more, rest := ReadField(reader, todo, line);
      WithFieldsTwice(fields, more, TrailerFrom(rest));
      fields := fields + more;
      if !got {
        WithFieldsAlone(fields);
        return false, fields;
      }
      todo := rest;
      line := reader.Text();
    }
    NextTrailerLine(todo, line, reader.strm.Remaining());
    WithFieldsAlone(fields);
    ok := true;
  }

  lemma WithNoFields(r: Reading)
    ensures WithFields([], r) == r
  {
  }

  lemma WithFieldsAlone(fields: seq<Param>)
    ensures WithFields(fields, FAILED) == Reading(false, [], fields, [])
    ensures forall rest: string :: WithFields(fields, Reading(true, [], [], rest)) == Reading(true, [], fields, rest)
  {
    assert fields + [] == fields;
  }

  /** What one size line decides. */
  lemma NextSizeLine(todo: string, line: string, after: string)
    requires todo != [] && line == FirstLine(todo) && todo == line + after
    ensures var n := Strtoul16(line);
      if n == None || n.value == ULONG_MAX then ChunksFrom(todo) == FAILED
      else if n.value == 0 then ChunksFrom(todo) == TrailerFrom(after)
      else if |after| < n.value then ChunksFrom(todo) == Reading(false, after, [], [])
      else true
  {
    assert todo[|line|..] == after;
  }

  /** What follows `piece` on the stream decides whether it was a chunk. */
  lemma NextChunk(todo: string, line: string, piece: string, more: string, end: string, rest: string)
    requires line != [] && todo == line + (piece + more) && line == FirstLine(todo) && more == end + rest
             && end == FirstLine(more)
    requires Strtoul16(line) == Some(|piece|) && 0 < |piece| < ULONG_MAX
    ensures ChunksFrom(todo)
            == if CString(end) != CRLF then Reading(false, piece, [], []) else WithContent(piece, ChunksFrom(rest))
  {
    var after := piece + more;
    assert todo[|line|..] == after;
    assert after[..|piece|] == piece && after[|piece|..] == more && more[|end|..] == rest;
  }

  lemma WithContentTwice(a: string, b: string, r: Reading)
    ensures WithContent(a, WithContent(b, r)) == WithContent(a + b, r)
  {
    Associate(a, b, r.content);
  }

  lemma WithNoContent(r: Reading)
    ensures WithContent([], r) == r
  {
  }

  datatype ChunkStep = Next | GiveUp

  /** A piece of content that has been read after its size line. */
  ghost predicate AfterPiece(todo: string, line: string, piece: string, more: string) {
    line != [] && todo == line + (piece + more) && line == FirstLine(todo)
    && Strtoul16(line) == Some(|piece|) && 0 < |piece| < ULONG_MAX
  }

  /** The same for a piece that has been read. */
  lemma LineEndDecides(todo: string, line: string, piece: string, more: string, end: string, rest: string)
    requires AfterPiece(todo, line, piece, more) && more == end + rest && end == FirstLine(more)
    ensures |rest| < |todo|
    ensures CString(end) != CRLF || rest == [] ==> ChunksFrom(todo) == Reading(false, piece, [], [])
    ensures CString(end) == CRLF ==> ChunksFrom(todo) == WithContent(piece, ChunksFrom(rest))
  {
    NextChunk(todo, line, piece, more, end, rest);
    assert piece + [] == piece;
  }

  /** The line end of a chunk and the next size line. */
  method ReadLineEnd(reader: StreamLineReader, ghost todo: string, ghost line: string, ghost piece: string)
    returns (step: ChunkStep, ghost rest: string)
    requires reader.Valid() && reader.strm.Valid() && AfterPiece(todo, line, piece, reader.strm.Remaining())
    modifies reader, reader.fixedBuffer, reader.strm, reader.strm.readBuff
    ensures reader.Valid() && reader.strm.Valid()
    ensures old(reader.strm.Reliable()) ==> reader.strm.Reliable()
    ensures step.Next? ==>
              AtLine(reader, rest) && |rest| < |todo| && ChunksFrom(todo) == WithContent(piece, ChunksFrom(rest))
    ensures step.GiveUp? && old(reader.strm.Reliable()) ==> ChunksFrom(todo) == Reading(false, piece, [], [])
  {
    ghost var more := reader.strm.Remaining();
    rest := [];
    var ok := reader.GetLine();
    if !ok {
      if more == [] {
        LineEndDecides(todo, line, piece, more, [], []);
      }
      return GiveUp, rest;
    }
    var end := reader.Text();
    rest := reader.strm.Remaining();
    LineEndDecides(todo, line, piece, more, end, rest);
    if CString(end) != CRLF {
      return GiveUp, rest;
    }
    ok := reader.GetLine();
    step := if ok then Next else GiveUp;
  }

  /** Whatever follows, the content begins with what has been read of a chunk. */
  lemma ChunkBegins(todo: string, line: string, after: string, n: nat, read: string, left: string)
    requires todo != [] && line == FirstLine(todo) && todo == line + after
    requires Strtoul16(line) == Some(n) && 0 < n < ULONG_MAX && after == read + left && |read| <= n
    ensures read <= ChunksFrom(todo).content
  {
    assert todo[|line|..] == after;
    assert |after| >= n ==> read <= after[..n];
  }

  /** One chunk of `n` bytes after its size line: the content, its line end, and the next size line. */
  method ReadChunk(reader: StreamLineReader, n: nat, receive: Receiver, got: string, ghost todo: string)
    returns (step: ChunkStep, piece: string, ghost refused: Option<string>, ghost rest: string)
    requires AtLine(reader, todo) && Strtoul16(reader.Line()) == Some(n) && 0 < n < ULONG_MAX && Took(receive, got)
    modifies reader, reader.fixedBuffer, reader.strm, reader.strm.readBuff
    ensures reader.Valid() && reader.strm.Valid()
    ensures old(reader.strm.Reliable()) ==> reader.strm.Reliable()
    ensures Took(receive, got + piece) && piece + TextOf(refused) <= ChunksFrom(todo).content
    ensures refused.Some? ==> step.GiveUp? && !receive(got + piece, refused.value)
    ensures step.Next? ==>
              AtLine(reader, rest) && |rest| < |todo| && ChunksFrom(todo) == WithContent(piece, ChunksFrom(rest))
    ensures step.GiveUp? && old(reader.strm.Reliable()) && refused == None ==>
              ChunksFrom(todo) == Reading(false, piece, [], [])
  {
    ghost var line, after := reader.Line(), reader.strm.Remaining();
    NextSizeLine(todo, line, after);
    var ok: bool;
    rest := [];
    ok, piece, refused := ReadContentWithLength(reader.strm, n, receive, got);
    ChunkBegins(todo, line, after, n, piece + TextOf(refused), reader.strm.Remaining());
    if refused == None {
      NothingBetween(piece, TextOf(refused), reader.strm.Remaining());
    }
    if !ok {
      return GiveUp, piece, refused, rest;
    }
    step, rest := ReadLineEnd(reader, todo, line, piece);
  }

  lemma NothingBetween(piece: string, refused: string, rest: string)
    requires refused == []
    ensures piece + refused + rest == piece + rest && piece + refused == piece
    ensures rest == [] ==> piece + rest == piece
  {
  }

  lemma BeginsWith(content: string, piece: string, refused: string, r: Reading, whole: Reading)
    requires WithContent(content, r) == whole && piece + refused <= r.content
    ensures (content + piece) + refused <= whole.content
  {
    Associate(content, piece, refused);
    assert r.content == (piece + refused) + r.content[|piece + refused|..];
    Associate(content, piece + refused, r.content[|piece + refused|..]);
  }

  /** The chunks up to the size line of the last one, or up to a failure. */
  method ReadChunks(reader: StreamLineReader, receive: Receiver, ghost all: string)
    returns (step: ChunkStep, content: string, ghost refused: Option<string>)
    requires AtLine(reader, all)
    modifies reader, reader.fixedBuffer, reader.strm, reader.strm.readBuff
    ensures reader.Valid() && reader.strm.Valid()
    ensures old(reader.strm.Reliable()) ==> reader.strm.Reliable()
    ensures step.Next? ==> ChunksFrom(all) == WithContent(content, TrailerFrom(reader.strm.Remaining()))
    ensures Took(receive, content)
    ensures refused.Some? ==>
              step.GiveUp? && !receive(content, refused.value) && content + refused.value <= ChunksFrom(all).content
    ensures step.GiveUp? && old(reader.strm.Reliable()) && refused == None ==>
              ChunksFrom(all) == Reading(false, content, [], [])
  {
    content, refused := [], None;
    ghost var todo, whole := all, ChunksFrom(all);
    WithNoContent(whole);
    TookNothing(receive);
    while true
      invariant AtLine(reader, todo)
      invariant WithContent(content, ChunksFrom(todo)) == whole && Took(receive, content)
      invariant old(reader.strm.Reliable()) ==> reader.strm.Reliable()
      decreases |todo|
    {
      var line := reader.Text();
      var n := Strtoul16(line);
      NextSizeLine(todo, line, reader.strm.Remaining());
      if n == None || n.value == ULONG_MAX {
        NothingMore(content);
        return GiveUp, content, None;
      }
      if n.value == 0 {
        return Next, content, None;
      }
      var next, piece, stopped, rest := ReadChunk(reader, n.value, receive, content, todo);
      if next == GiveUp {
        BeginsWith(content, piece, TextOf(stopped), ChunksFrom(todo), whole);
        return GiveUp, content + piece, stopped;
      }
      WithContentTwice(content, piece, ChunksFrom(rest));
      content := content + piece;
      todo := rest;
    }
  }

  /** The content and the trailer of a chunked body; after success the stream is left at the byte after the
      empty line.  Whatever the socket gives at a time, a stream that does not fail gives what the coding
      means, to a receiver that refuses nothing; one that does has taken the beginning of it up to there. */
  method ReadContentChunked(strm: SocketStream, receive: Receiver)
    returns (ok: bool, content: string, fields: seq<Param>, ghost refused: Option<string>)
    requires strm.Valid()
    modifies strm, strm.readBuff
    ensures strm.Valid()
    ensures Took(receive, content)
    ensures ok ==> ChunksFrom(old(strm.Remaining())) == Reading(true, content, fields, strm.Remaining())
    ensures refused.Some? ==>
              !ok && !receive(content, refused.value)
              && content + refused.value <= ChunksFrom(old(strm.Remaining())).content
    ensures old(strm.Reliable()) && refused == None ==>
      var r := ChunksFrom(old(strm.Remaining())); ok == r.ok && content == r.content && fields == r.fields
  {
    content, fields, refused := [], [], None;
    TookNothing(receive);
    ghost var all := strm.Remaining();
    var buf := new char[16](_ => '\0');
    var reader := new StreamLineReader(strm, buf);
    ok := reader.GetLine();
    if !ok {
      return;
    }
    var step: ChunkStep;
    step, content, refused := ReadChunks(reader, receive, all);
    if step == GiveUp {
      return false, content, [], refused;
    }
    ghost var after := strm.Remaining();
    TrailerHasNoContent(after);
    assert content + [] == content;
    ok := reader.GetLine();
    if ok {
      ok, fields := ReadTrailer(reader, after);
    }
  }

  lemma {:induction false} TrailerHasNoContent(s: string)
    ensures TrailerFrom(s).content == []
    decreases |s|
  {
    if s != [] && CString(FirstLine(s)) != CRLF && |FirstLine(s)| <= HEADER_MAX_LENGTH {
      TrailerHasNoContent(s[|FirstLine(s)|..]);
    }
  }

  // ---------------------------------------------------------------- writing

  /** All of the data, however little each write takes. */
  method WriteData(strm: OutStream, d: string) returns (ok: bool)
    modifies strm
    ensures ok ==> strm.out == old(strm.out) + d
    ensures old(strm.Reliable()) ==> ok && strm.Reliable()
  {
    var offset: nat := 0;
    assert old(strm.out) + d[..0] == old(strm.out);
    while offset < |d|
      invariant offset <= |d| && strm.out == old(strm.out) + d[..offset]
      invariant old(strm.Reliable()) ==> strm.Reliable()
      decreases |d| - offset
    {
      var n := strm.Write(d[offset..]);
      if n < 0 {
        return false;
      }
      TakeMore(old(strm.out), d, offset, n);
      offset := offset + n;
    }
    assert d[..offset] == d;
    ok := true;
  }

  lemma TakeMore(before: string, d: string, offset: nat, n: nat)
    requires offset + n <= |d|
    ensures (before + d[..offset]) + d[offset..][..n] == before + d[..offset + n]
    ensures (before + d[..offset]) + [] == before + d[..offset]
  {
    assert d[..offset] + d[offset..][..n] == d[..offset + n];
  }

  /** What a content provider is given to write to. */
  class DataSink {
    const strm: OutStream
    var ok: bool
    var dataAvailable: bool
    var offset: nat

    constructor (strm: OutStream)
      ensures this.strm == strm && ok && dataAvailable && offset == 0
    {
      this.strm := strm;
      ok, dataAvailable, offset := true, true, 0;
    }

    /** A chunk for the data, unless it is empty or an earlier write failed. */
    method Write(d: string)
      modifies this, strm
      ensures ok ==>
                old(ok) && strm.out == old(strm.out) + Chunk(d) && dataAvailable == (d != [])
                && offset == old(offset) + |d|
      ensures !old(ok) ==> unchanged(this) && unchanged(strm)
      ensures old(strm.Reliable()) ==> ok == old(ok) && strm.Reliable()
    {
      if ok {
        dataAvailable := |d| > 0;
        offset := offset + |d|;
        var payload := d;
        if payload != [] {
          var size := FromIToHex(|payload|);
          var chunk := size + "\r\n" + payload + "\r\n";
          var writable := strm.IsWritable();
          if !writable {
            ok := false;
          } else {
            ok := WriteData(strm, chunk);
          }
        } else {
          assert strm.out + [] == strm.out;
        }
      }
    }

    /** The last chunk, the trailer and the empty line. */
    method Done(trailer: seq<Param>)
      modifies this, strm
      ensures ok ==>
                old(ok) && strm.out == old(strm.out) + CallText(Call.Done(trailer)) && !dataAvailable
                && offset == old(offset)
      ensures !old(ok) ==> unchanged(this) && unchanged(strm)
      ensures old(strm.Reliable()) ==> ok == old(ok) && strm.Reliable()
    {
      if !ok {
        return;
      }
      dataAvailable := false;
      ghost var before := strm.out;
      ok := WriteData(strm, "0\r\n");
      for i := 0 to |trailer|
        modifies this`ok, strm
        invariant ok ==> strm.out + TrailerText(trailer[i..]) == before + "0\r\n" + TrailerText(trailer)
        invariant old(strm.Reliable()) ==> ok && strm.Reliable()
      {
        TrailerStep(strm.out, trailer, i);
        var written := WriteData(strm, trailer[i].key + ": " + trailer[i].value + "\r\n");
        if !written {
          ok := false;
        }
      }
      NothingMore(strm.out);
      var written := WriteData(strm, "\r\n");
      if !written {
        ok := false;
      }
      Associate(before, "0\r\n" + TrailerText(trailer), CRLF);
      Associate(before, "0\r\n", TrailerText(trailer));
    }
  }

  lemma TrailerStep(out: string, trailer: seq<Param>, i: nat)
    requires i < |trailer|
    ensures var line := FieldLine(trailer[i]);
      out + TrailerText(trailer[i..]) == (out + line) + TrailerText(trailer[i + 1..])
  {
    assert trailer[i..][1..] == trailer[i + 1..];
    Associate(out, FieldLine(trailer[i]), TrailerText(trailer[i + 1..]));
  }

  /** A round of the provider: its calls on the sink, in order. */
  method Perform(sink: DataSink, calls: seq<Call>)
    modifies sink, sink.strm
    ensures sink.ok ==> old(sink.ok) && sink.strm.out == old(sink.strm.out) + CallsText(calls)
                        && sink.dataAvailable == ExpectingAfter(calls, old(sink.dataAvailable))
    ensures old(sink.strm.Reliable()) ==> sink.ok == old(sink.ok) && sink.strm.Reliable()
  {
    ghost var rest := calls;
    ghost var before, expecting := sink.strm.out, sink.dataAvailable;
    for i := 0 to |calls|
      invariant Tail(calls, i, rest)
      invariant sink.ok ==> old(sink.ok) && sink.strm.out + CallsText(rest) == before + CallsText(calls)
      invariant sink.ok ==> ExpectingAfter(rest, sink.dataAvailable) == ExpectingAfter(calls, expecting)
      invariant old(sink.strm.Reliable()) ==> sink.ok == old(sink.ok) && sink.strm.Reliable()
    {
      TailStep(calls, i, rest);
      Associate(sink.strm.out, CallText(rest[0]), CallsText(rest[1..]));
      match calls[i] {
        case Write(data) => sink.Write(data);
        case Done(trailer) => sink.Done(trailer);
      }
      rest := rest[1..];
    }
    NothingMore(sink.strm.out);
  }

  /** What is on the wire and what is still to be written make up the whole. */
  ghost predicate Stands(whole: (string, Result), text: string, rest: seq<Round>, n: nat, expecting: bool) {
    var more := Written(rest, n, expecting);
    whole == (text + more.0, more.1)
  }

  lemma StandsAtEnd(whole: (string, Result), text: string, rest: seq<Round>, n: nat, expecting: bool)
    requires Stands(whole, text, rest, n, expecting) && (!expecting || n == 0)
    ensures whole == (text, Success)
  {
    NothingMore(text);
  }

  lemma StandsAtLast(whole: (string, Result), text: string, rest: seq<Round>, n: nat)
    requires Stands(whole, text, rest, n, true) && n > 0 && rest == []
    ensures whole == (text, Canceled)
  {
    NothingMore(text);
  }

  lemma StandsNext(whole: (string, Result), text: string, rest: seq<Round>, n: nat)
    requires Stands(whole, text, rest, n, true) && n > 0 && rest != []
    ensures var calls := rest[0].calls;
      if rest[0].keepGoing then Stands(whole, text + CallsText(calls), rest[1..], n - 1, ExpectingAfter(calls, true))
      else whole == (text + CallsText(calls), Canceled)
  {
    if rest[0].keepGoing {
      Associate(text, CallsText(rest[0].calls), Written(rest[1..], n - 1, ExpectingAfter(rest[0].calls, true)).0);
    }
  }

  /** One round of the provider: it goes on, or it stops with a result. */
  method PerformRound(sink: DataSink, round: Round, ghost whole: (string, Result), ghost before: string,
                      ghost text: string, ghost rest: seq<Round>, ghost n: nat)
    returns (stop: bool, result: Result, ghost sent: string)
    requires sink.ok && rest != [] && rest[0] == round && n > 0 && Stands(whole, text, rest, n, true)
    requires sink.dataAvailable && sink.strm.out == before + text
    modifies sink, sink.strm
    ensures if stop then result != Success
            else sink.ok && sink.strm.out == before + sent && Stands(whole, sent, rest[1..], n - 1, sink.dataAvailable)
    ensures old(sink.strm.Reliable()) ==>
              sink.strm.Reliable() && (stop ==> result == whole.1 && sink.strm.out == before + whole.0)
  {
    sent := text + CallsText(round.calls);
    StandsNext(whole, text, rest, n);
    Associate(before, text, CallsText(round.calls));
    Perform(sink, round.calls);
    stop := !round.keepGoing || !sink.ok;
    result := if !round.keepGoing then Canceled else WriteError;
  }

  /** The head of the loop and one round. */
  method NextRound(sink: DataSink, script: seq<Round>, i: nat, ghost whole: (string, Result), ghost before: string,
                   ghost text: string, ghost rest: seq<Round>, n: nat)
    returns (stop: bool, result: Result, next: nat, left: nat, ghost sent: string, ghost more: seq<Round>)
    requires sink.ok && Tail(script, i, rest) && n > 0 && Stands(whole, text, rest, n, true)
    requires sink.dataAvailable && sink.strm.out == before + text
    modifies sink, sink.strm
    ensures if stop then result != Success
            else left == n - 1 && Tail(script, next, more) && sink.ok && sink.strm.out == before + sent
                 && Stands(whole, sent, more, left, sink.dataAvailable)
    ensures old(sink.strm.Reliable()) ==>
              sink.strm.Reliable() && (stop ==> result == whole.1 && sink.strm.out == before + whole.0)
  {
    stop, result, next, left, sent, more := true, WriteError, i + 1, n - 1, text, [];
    var writable := sink.strm.IsWritable();
    if writable {
      if i == |script| {
        StandsAtLast(whole, text, rest, n);
        result := Canceled;
      } else {
        TailStep(script, i, rest);
        more := rest[1..];
        stop, result, sent := PerformRound(sink, script[i], whole, before, text, rest, n);
      }
    }
  }

  method WriteRounds(sink: DataSink, script: seq<Round>, rounds: nat, ghost whole: (string, Result))
    returns (result: Result)
    requires sink.ok && sink.dataAvailable && Stands(whole, [], script, rounds, true)
    modifies sink, sink.strm
    ensures result == Success ==> whole.1 == Success && sink.strm.out == old(sink.strm.out) + whole.0
    ensures old(sink.strm.Reliable()) ==> result == whole.1 && sink.strm.out == old(sink.strm.out) + whole.0
  {
    ghost var before, text, rest := sink.strm.out, [], script;
    NothingMore(before);
    var i: nat, left: nat := 0, rounds;
    while sink.dataAvailable && left > 0
      invariant sink.ok && sink.strm.out == before + text
      invariant Tail(script, i, rest) && Stands(whole, text, rest, left, sink.dataAvailable)
      invariant old(sink.strm.Reliable()) ==> sink.strm.Reliable()
      decreases left
    {
      var stop;
      stop, result, i, left, text, rest := NextRound(sink, script, i, whole, before, text, rest, left);
      if stop {
        return;
      }
    }
    StandsAtEnd(whole, text, rest, left, sink.dataAvailable);
    result := Success;
  }

  /** The provider's rounds until it expects no more data; the server shuts down after `rounds` of them.
      Success means that everything was sent. */
  method WriteContentChunked(strm: OutStream, script: seq<Round>, rounds: nat) returns (result: Result)
    modifies strm
    ensures result == Success ==>
      Written(script, rounds, true).1 == Success && strm.out == old(strm.out) + Written(script, rounds, true).0
    ensures old(strm.Reliable()) ==>
      result == Written(script, rounds, true).1 && strm.out == old(strm.out) + Written(script, rounds, true).0
  {
    var sink := new DataSink(strm);
    ghost var whole := Written(script, rounds, true);
    assert [] + whole.0 == whole.0;
    result := WriteRounds(sink, script, rounds, whole);
  }
}
