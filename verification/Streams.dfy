/**
  The buffered reader over a socket that gives what it likes, and the line reader on top of it.
 */
module Streams {
  import opened Sequences

  /** What one system call does: fail (also: time out), or move at most `limit` bytes and at least one. */
  datatype Event = Fails | Moves(limit: nat)

  const READ_BUFF_SIZE: nat := 4096

  class SocketStream {
    /** The environment: the bytes that are still to come, and how each system call will go. */
    var unread: string
    const schedule: nat -> Event
    var now: nat
    const readBuff: array<char>
    var readBuffOff: nat
    var readBuffContentSize: nat

    ghost predicate Valid()
      reads this, readBuff
    {
      readBuff.Length == READ_BUFF_SIZE && readBuffOff <= readBuffContentSize <= READ_BUFF_SIZE
    }

    /** The stream that is still to be read: what is buffered, then what is to come. */
    ghost function Remaining(): string
      requires Valid()
      reads this, readBuff
    {
      readBuff[readBuffOff..readBuffContentSize] + unread
    }

    /** No system call fails from now on. */
    ghost predicate Reliable()
      reads this
    {
      forall t: nat :: t >= now ==> schedule(t).Moves?
    }

    constructor (incoming: string, schedule: nat -> Event)
      ensures Valid() && Remaining() == incoming && fresh(readBuff)
      ensures this.schedule == schedule && now == 0
    {
      unread, now, readBuffOff, readBuffContentSize := incoming, 0, 0, 0;
      this.schedule := schedule;
      readBuff := new char[READ_BUFF_SIZE](_ => '\0');
    }

    method IsReadable() returns (r: bool)
      modifies `now
      ensures old(Reliable()) ==> r && Reliable()
    {
      r := schedule(now).Moves?;
      now := now + 1;
    }

    method ReadSocket(size: nat) returns (n: int, data: string)
      requires size > 0
      modifies `now, `unread
      ensures n == |data| || (n == -1 && data == [])
      ensures |data| <= size && old(unread) == data + unread
      ensures n == 0 ==> unread == []
      ensures old(Reliable()) ==> n >= 0 && Reliable()
    {
      var event := schedule(now);
      now := now + 1;
      if event.Fails? {
        return -1, [];
      }
      var k := Least(size, Least(|unread|, if event.limit == 0 then 1 else event.limit));
      n, data := k, unread[..k];
      unread := unread[k..];
    }

    method Fill(data: string)
      requires Valid() && |data| <= READ_BUFF_SIZE
      modifies readBuff
      ensures readBuff[..|data|] == data
    {
      forall i | 0 <= i < |data| {
        readBuff[i] := data[i];
      }
    }

    /** Up to `size` bytes by way of the empty buffer, which keeps what is not asked for. */
    method ReadThroughBuffer(size: nat) returns (n: int, data: string)
      requires Valid() && readBuffOff == 0 && readBuffContentSize == 0 && size < READ_BUFF_SIZE
      modifies this, readBuff
      ensures Valid() && (n == |data| || (n < 0 && data == [])) && |data| <= size
      ensures old(unread) == data + Remaining()
      ensures n == 0 && size > 0 ==> Remaining() == []
      ensures old(Reliable()) ==> n >= 0 && Reliable()
    {
      var got: string;
      n, got := ReadSocket(READ_BUFF_SIZE);
      if n <= 0 {
        assert got == [];
        return n, [];
      }
      if n <= size {
        return n, got;
      }
      Fill(got);
      readBuffOff := size;
      readBuffContentSize := n;
      data := got[..size];
      assert readBuff[size..n] == got[size..];
      n := size;
    }

    /** Up to `size` bytes: from the buffer if it holds any, else from the socket. */
    method Read(size: nat) returns (n: int, data: string)
      requires Valid()
      modifies this, readBuff
      ensures Valid() && (n == |data| || (n < 0 && data == [])) && |data| <= size
      ensures old(Remaining()) == data + Remaining()
      ensures n == 0 && size > 0 ==> Remaining() == []
      ensures old(Reliable()) ==> n >= 0 && Reliable()
    {
      if readBuffOff < readBuffContentSize {
        var taken := Least(size, readBuffContentSize - readBuffOff);
        data := readBuff[readBuffOff..readBuffOff + taken];
        readBuffOff := readBuffOff + taken;
        return taken, data;
      }
      var readable := IsReadable();
      if !readable {
        return -1, [];
      }
      readBuffOff := 0;
      readBuffContentSize := 0;
      if size < READ_BUFF_SIZE {
        n, data := ReadThroughBuffer(size);
      } else {
        n, data := ReadSocket(size);
      }
    }
  }

  /** The sending side of a socket. */
  class OutStream {
    var out: string
    const schedule: nat -> Event
    var now: nat

    ghost predicate Reliable()
      reads this
    {
      forall t: nat :: t >= now ==> schedule(t).Moves?
    }

    constructor (schedule: nat -> Event)
      ensures out == [] && now == 0 && this.schedule == schedule
    {
      out, now := [], 0;
      this.schedule := schedule;
    }

    method IsWritable() returns (r: bool)
      modifies `now
      ensures old(Reliable()) ==> r && Reliable()
    {
      r := schedule(now).Moves?;
      now := now + 1;
    }

    /** Sends some of the data, at least one byte of it unless it fails. */
    method Write(data: string) returns (n: int)
      modifies this
      ensures n <= |data| && out == old(out) + if n > 0 then data[..n] else []
      ensures n == 0 ==> data == []
      ensures old(Reliable()) ==> n >= 0 && Reliable()
    {
      var event := schedule(now);
      now := now + 1;
      if event.Fails? {
        return -1;
      }
      var k := Least(|data|, if event.limit == 0 then 1 else event.limit);
      out := out + data[..k];
      n := k;
    }
  }

  // ---------------------------------------------------------------- lines

  /** Through the first line feed, or everything. */
  function FirstLine(s: string): (line: string)
    ensures |line| <= |s| && line == s[..|line|]
    ensures s != [] ==> line != []
  {
    if s == [] then [] else if s[0] == '\n' then "\n" else [s[0]] + FirstLine(s[1..])
  }

  lemma {:induction false} FirstLineIs(line: string, rest: string)
    requires line != [] && '\n' !in line[..|line| - 1] && (line[|line| - 1] == '\n' || rest == [])
    ensures FirstLine(line + rest) == line
  {
    var s := line + rest;
    if |line| > 1 {
      assert line[..|line| - 1][0] == line[0] != '\n';
      assert s[1..] == line[1..] + rest;
      assert '\n' !in line[1..][..|line| - 2];
      FirstLineIs(line[1..], rest);
    } else if line[0] != '\n' {
      assert s[1..] == [];
    }
  }

  class StreamLineReader {
    const strm: SocketStream
    const fixedBuffer: array<char>
    var usedSize: nat
    var glowableBuffer: string

    ghost predicate Valid()
      reads this, fixedBuffer
    {
      usedSize < fixedBuffer.Length && fixedBuffer != strm.readBuff
      && (glowableBuffer != [] ==> usedSize == fixedBuffer.Length - 1) && Terminated()
    }

    /** What is in the fixed buffer is a C string once a character has been put there. */
    ghost predicate Terminated()
      requires usedSize < fixedBuffer.Length
      reads this, fixedBuffer
    {
      usedSize > 0 ==> fixedBuffer[usedSize] == '\0'
    }

    /** The line read so far, wherever it is kept. */
    ghost function Line(): string
      requires Valid()
      reads this, fixedBuffer
    {
      if glowableBuffer == [] then fixedBuffer[..usedSize] else glowableBuffer
    }

    constructor (strm: SocketStream, fixedBuffer: array<char>)
      requires fixedBuffer.Length > 0 && fixedBuffer != strm.readBuff
      ensures Valid() && this.strm == strm && this.fixedBuffer == fixedBuffer
    {
      this.strm, this.fixedBuffer := strm, fixedBuffer;
      usedSize, glowableBuffer := 0, [];
    }

    method Text() returns (s: string)
      requires Valid()
      ensures s == Line()
    {
      s := if glowableBuffer == [] then fixedBuffer[..usedSize] else glowableBuffer;
    }

    method Append(c: char)
      requires Valid()
      modifies this, fixedBuffer
      ensures Valid() && Line() == old(Line()) + [c] && Terminated()
    {
      if usedSize < fixedBuffer.Length - 1 {
        fixedBuffer[usedSize] := c;
        usedSize := usedSize + 1;
        fixedBuffer[usedSize] := '\0';
      } else {
        if glowableBuffer == [] {
          glowableBuffer := fixedBuffer[..usedSize];
        }
        glowableBuffer := glowableBuffer + [c];
      }
    }

    /** One byte moved from the stream to the line, if there is one. */
    method AppendByte() returns (n: int, c: char)
      requires Valid() && strm.Valid()
      modifies this, fixedBuffer, strm, strm.readBuff
      ensures Valid() && strm.Valid() && n <= 1
      ensures n > 0 ==> Line() == old(Line()) + [c] && old(strm.Remaining()) == [c] + strm.Remaining()
      ensures n <= 0 ==> Line() == old(Line()) && strm.Remaining() == old(strm.Remaining())
      ensures n == 0 ==> strm.Remaining() == []
      ensures old(strm.Reliable()) ==> n >= 0 && strm.Reliable()
    {
      var data: string;
      ghost var line := Line();
      n, data := strm.Read(1);
      assert Line() == line;
      c := '\0';
      if n > 0 {
        c := data[0];
        assert data == [c];
        Append(c);
      } else {
        assert data + strm.Remaining() == strm.Remaining();
      }
    }

    /** One line, byte by byte; it may spill from the fixed buffer to the growing one. */
    method GetLine() returns (ok: bool)
      requires Valid() && strm.Valid()
      modifies this, fixedBuffer, strm, strm.readBuff
      ensures Valid() && strm.Valid() && old(strm.Remaining()) == Line() + strm.Remaining()
      ensures ok ==> Line() != [] && Line() == FirstLine(old(strm.Remaining()))
      ensures old(strm.Reliable()) ==> strm.Reliable() && (ok <==> old(strm.Remaining()) != [])
    {
      usedSize, glowableBuffer := 0, [];
      ghost var all := strm.Remaining();
      var i := 0;
      while true
        invariant Valid() && strm.Valid() && i == |Line()|
        invariant all == Line() + strm.Remaining() && '\n' !in Line()
        invariant old(strm.Reliable()) ==> strm.Reliable()
        decreases |strm.Remaining()|
      {
        ghost var line := Line();
        var n, c := AppendByte();
        if n <= 0 {
          LineAtEnd(line, strm.Remaining());
          return n == 0 && i > 0;
        }
        LineGrows(line, c, strm.Remaining());
        if c == '\n' {
          return true;
        }
        i := i + 1;
      }
    }
  }

  lemma LineAtEnd(line: string, rest: string)
    ensures rest == [] && line != [] && '\n' !in line ==> FirstLine(line + rest) == line
    ensures rest == [] ==> line + rest == line
  {
    if rest == [] && line != [] && '\n' !in line {
      FirstLineIs(line, []);
    }
  }

  lemma LineGrows(line: string, c: char, rest: string)
    ensures line + ([c] + rest) == (line + [c]) + rest
    ensures '\n' !in line ==> if c == '\n' then FirstLine(line + ([c] + rest)) == line + [c] else '\n' !in line + [c]
  {
    if '\n' !in line && c == '\n' {
      FirstLineIs(line + [c], rest);
      assert (line + [c])[..|line|] == line;
    }
  }
}
