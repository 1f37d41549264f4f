/**
  The incremental multipart/form-data parser over its sliding buffer.
 */
module Multipart {
  import opened Search
  import opened MultipartSpec
  import opened Wire

  /** The comparison of `b` with the text of `a` from `spos` on, up to `epos`. */
  method StartWith(a: string, spos: nat, epos: nat, b: string) returns (r: bool)
    requires spos <= epos <= |a|
    ensures r == (b <= a[spos..epos])
    ensures r == (spos + |b| <= epos && a[spos..spos + |b|] == b)
  {
    if epos - spos < |b| {
      return false;
    }
    for i := 0 to |b|
      invariant forall k :: 0 <= k < i ==> a[spos..epos][k] == b[k]
    {
      if a[i + spos] != b[i] {
        return false;
      }
    }
    return true;
  }

  /** Where `s` first occurs in the text of `a` between `i` and `epos`, or `epos`. */
  ghost function FirstOccurrence(a: string, epos: nat, s: string, i: nat): (r: nat)
    requires s != [] && i <= epos <= |a|
    ensures i <= r <= epos
    decreases epos - i
  {
    if i + |s| > epos then epos
    else if a[i..i + |s|] == s then i
    else FirstOccurrence(a, epos, s, i + 1)
  }

  lemma {:induction false} FirstOccurrenceIsFind(a: string, epos: nat, s: string, i: nat)
    requires s != [] && i <= epos <= |a|
    ensures FirstOccurrence(a, epos, s, i) == i + Find(a[i..epos], s)
    decreases epos - i
  {
    if i + |s| <= epos {
      assert a[i..i + |s|] == a[i..epos][..|s|];
      if a[i..i + |s|] != s {
        FirstOccurrenceIsFind(a, epos, s, i + 1);
        assert a[i..epos][1..] == a[i + 1..epos];
      }
    }
  }

  lemma {:induction false} NoFirstCharacter(a: string, epos: nat, s: string, i: nat, j: nat)
    requires s != [] && i <= j <= epos <= |a| && forall k :: i <= k < j ==> a[k] != s[0]
    ensures FirstOccurrence(a, epos, s, i) == FirstOccurrence(a, epos, s, j)
    decreases j - i
  {
    if i < j {
      NoFirstCharacter(a, epos, s, i + 1, j);
      if i + |s| <= epos {
        assert a[i..i + |s|][0] == a[i];
      } else {
        assert FirstOccurrence(a, epos, s, i + 1) == epos;
      }
    }
  }

  /** The first occurrence of `s` between `spos` and `epos`, counted from `spos`; the whole length if none. */
  method FindBetween(a: string, spos: nat, epos: nat, s: string) returns (r: nat)
    requires spos <= epos <= |a| && s != []
    ensures r == Find(a[spos..epos], s)
  {
    FirstOccurrenceIsFind(a, epos, s, spos);
    var off := spos;
    while off < epos
      invariant spos <= off <= epos
      invariant FirstOccurrence(a, epos, s, spos) == FirstOccurrence(a, epos, s, off)
    {
      var pos := FindCharacter(a, off, epos, s[0]);
      NoFirstCharacter(a, epos, s, off, pos);
      if pos == epos || |s| > epos - pos {
        return epos - spos;
      }
      var here := StartWith(a, pos, epos, s);
      if here {
        return pos - spos;
      }
      off := pos + 1;
    }
    return epos - spos;
  }

  /** The block of `n` characters at `from` moved to the front, one character at a time. */
  method MovedDown(a: string, from: nat, n: nat) returns (r: string)
    requires from + n <= |a|
    ensures |r| == |a| && r[..n] == a[from..from + n]
  {
    r := a;
    for i := 0 to n
      invariant |r| == |a|
      invariant forall k :: 0 <= k < i ==> r[k] == a[from + k]
      invariant forall k :: i <= k < |a| ==> r[k] == a[k]
    {
      r := r[i := r[from + i]];
    }
  }

  /** The text between two positions moved to the front, unless it is there or empty. */
  method Compacted(a: string, spos: nat, epos: nat) returns (r: string)
    requires spos <= epos <= |a|
    ensures |r| == |a| && r[..epos - spos] == a[spos..epos]
  {
    var n := epos - spos;
    r := a;
    if n > 0 && spos > 0 {
      r := MovedDown(a, spos, n);
    } else if n == 0 {
      assert r[..n] == [] == a[spos..epos];
    }
  }

  /** Room for at least `n` characters. */
  method Enlarged(a: string, n: nat, ghost kept: nat) returns (r: string)
    requires kept <= |a|
    ensures |r| >= n && |r| >= |a| && r[..kept] == a[..kept]
  {
    r := a;
    if n > |a| {
      r := a + seq(n - |a|, _ => '\0');
    }
  }

  lemma SliceFromZero(s: string, n: nat)
    requires n <= |s|
    ensures s[0..n] == s[..n]
  {
  }

  method Overwritten(a: string, at: nat, data: string) returns (r: string)
    requires at + |data| <= |a|
    ensures |r| == |a| && r[..at + |data|] == a[..at] + data
  {
    r := a;
    for i := 0 to |data|
      invariant |r| == |a|
      invariant forall k :: 0 <= k < at ==> r[k] == a[k]
      invariant forall k :: 0 <= k < i ==> r[at + k] == data[k]
    {
      r := r[at + i := data[i]];
    }
  }

  class MultipartFormDataParser<!S> {
    const dashBoundaryCrlf: string
    const crlfDashBoundary: string
    const boundary: string
    var state: nat
    var isValid: bool
    var file: FormData
    var buf: string
    var bufSpos: nat
    var bufEpos: nat

    constructor (boundary: string)
      ensures Valid() && this.boundary == boundary
      ensures forall env: S :: View(env) == Fresh(env)
    {
      this.boundary := boundary;
      dashBoundaryCrlf := DASH + boundary + CRLF;
      crlfDashBoundary := CRLF + DASH + boundary;
      state, isValid, file, buf, bufSpos, bufEpos := 0, false, NO_DATA, [], 0, 0;
    }

    ghost predicate Valid()
      reads this
    {
      state <= 4 && bufSpos <= bufEpos <= |buf|
      && dashBoundaryCrlf == Opening(boundary) && crlfDashBoundary == Delimiter(boundary)
    }

    ghost function Contents(): string
      requires Valid()
      reads this
    {
      buf[bufSpos..bufEpos]
    }

    /** The parser as a value, with the state of the client's callbacks. */
    ghost function View(env: S): Parser<S>
      requires Valid()
      reads this
    {
      Parser(state, isValid, file, Contents(), env)
    }

    method BufFind(s: string) returns (r: nat)
      requires Valid() && s != []
      ensures r == Find(Contents(), s)
    {
      r := FindBetween(buf, bufSpos, bufEpos, s);
    }

    method BufAppend(data: string)
      requires Valid()
      modifies `buf, `bufSpos, `bufEpos
      ensures Valid() && Contents() == old(Contents()) + data
    {
      var remaining := bufEpos - bufSpos;
      var moved := Compacted(buf, bufSpos, bufEpos);
      var roomy := Enlarged(moved, remaining + |data|, remaining);
      bufSpos := 0;
      bufEpos := remaining;
      buf := Overwritten(roomy, bufEpos, data);
      bufEpos := bufEpos + |data|;
      SliceFromZero(buf, bufEpos);
    }

    method BufErase(size: nat)
      requires Valid() && size <= |Contents()|
      modifies `bufSpos
      ensures Valid() && Contents() == old(Contents())[size..]
    {
      bufSpos := bufSpos + size;
    }

    method BufHead(l: nat) returns (head: string)
      requires Valid() && l <= |Contents()|
      ensures head == Contents()[..l]
    {
      head := buf[bufSpos..bufSpos + l];
    }

    ghost predicate Did(o: Outcome<S>, more: bool, ok: bool, env: S)
      requires Valid()
      reads this
    {
      View(env) == o.p && more == o.Again? && (!more ==> ok == o.ok)
    }

    method SkipPreamble(env: S) returns (more: bool, ok: bool)
      requires Valid()
      modifies `bufSpos, `state
      ensures Valid() && Did(MultipartSpec.SkipPreamble(Opening(boundary), old(View(env))), more, ok, env)
    {
      var pos := BufFind(dashBoundaryCrlf);
      BufErase(pos);
      if |dashBoundaryCrlf| > bufEpos - bufSpos {
        return false, true;
      }
      var here := StartWith(buf, bufSpos, bufEpos, dashBoundaryCrlf);
      if !here {
        return false, false;
      }
      BufErase(|dashBoundaryCrlf|);
      state := 1;
      return true, true;
    }

    /** One header line of `pos` characters, with its line end. */
    method ReadHeaderLine(h: Handlers<S>, pos: nat, ghost env: S) returns (good: bool)
      requires Valid() && state == 2 && 0 < pos == Find(Contents(), CRLF) < |Contents()|
      modifies `bufSpos, `file, `isValid
      ensures Valid()
              && if good then |Contents()| < old(|Contents()|)
                              && HeaderLines(h, View(env)) == HeaderLines(h, old(View(env)))
                 else HeaderLines(h, old(View(env))) == Stop(View(env), false)
    {
      FindFits(Contents(), CRLF);
      var header := BufHead(pos);
      var r := h.line(file, header);
      file := r.0;
      if !r.1 {
        isValid := false;
        return false;
      }
      BufErase(pos + |CRLF|);
      return true;
    }

    /** The empty line after the headers. */
    method EndHeaders(h: Handlers<S>, env0: S) returns (ok: bool, env: S)
      requires Valid() && Find(Contents(), CRLF) == 0 < |Contents()|
      modifies `bufSpos, `state, `isValid
      ensures Valid() && Did(HeaderLines(h, old(View(env0))), ok, ok, env)
    {
      FindFits(Contents(), CRLF);
      var r := h.part(env0, file);
      env, ok := r.0, r.1;
      if !ok {
        isValid := false;
        return;
      }
      BufErase(|CRLF|);
      state := 3;
    }

    /** The header lines that are complete; `more` when the empty one was among them. */
    method ReadHeaders(h: Handlers<S>, env0: S) returns (more: bool, ok: bool, env: S)
      requires Valid() && state == 2
      modifies `bufSpos, `state, `file, `isValid
      ensures Valid() && Did(MultipartSpec.ReadHeaders(h, old(View(env0))), more, ok, env)
    {
      env := env0;
      var pos := BufFind(CRLF);
      if pos > HEADER_MAX_LENGTH {
        return false, false, env;
      }
      ghost var whole := HeaderLines(h, View(env));
      while pos < bufEpos - bufSpos
        invariant Valid() && state == 2 && env == env0
        invariant pos == Find(Contents(), CRLF)
        invariant HeaderLines(h, View(env)) == whole
        decreases bufEpos - bufSpos
      {
        if pos == 0 {
          ok, env := EndHeaders(h, env);
          return ok, ok, env;
        }
        var good := ReadHeaderLine(h, pos, env);
        if !good {
          return false, false, env;
        }
        pos := BufFind(CRLF);
      }
      return false, true, env;
    }

    /** The first `len` characters passed on. */
    method PassContent(h: Handlers<S>, env0: S, len: nat) returns (ok: bool, env: S)
      requires Valid() && len <= |Contents()|
      modifies `isValid
      ensures Valid() && (env, ok) == h.content(env0, Contents()[..len]) && isValid == (ok && old(isValid))
    {
      var content := BufHead(len);
      var r := h.content(env0, content);
      env, ok := r.0, r.1;
      if !ok {
        isValid := false;
      }
    }

    /** The content up to a delimiter that has been found. */
    method TakeContent(h: Handlers<S>, env0: S, pos: nat) returns (more: bool, ok: bool, env: S)
      requires Valid() && pos == Find(Contents(), crlfDashBoundary) < |Contents()| && |crlfDashBoundary| <= |Contents()|
      modifies `bufSpos, `state, `isValid
      ensures Valid() && Did(MultipartSpec.ReadContent(Delimiter(boundary), h, old(View(env0))), more, ok, env)
    {
      FindFits(Contents(), crlfDashBoundary);
      ok, env := PassContent(h, env0, pos);
      if !ok {
        return false, false, env;
      }
      BufErase(pos + |crlfDashBoundary|);
      state := 4;
      more := true;
    }

    /** With no delimiter in sight, the content that cannot be part of one. */
    method PassMost(h: Handlers<S>, env0: S) returns (more: bool, ok: bool, env: S)
      requires Valid() && !Contains(Contents(), crlfDashBoundary) && |crlfDashBoundary| <= |Contents()|
      modifies `bufSpos, `isValid
      ensures Valid() && Did(MultipartSpec.ReadContent(Delimiter(boundary), h, old(View(env0))), more, ok, env)
    {
      more, ok, env := false, true, env0;
      var len := bufEpos - bufSpos - |crlfDashBoundary|;
      if len > 0 {
        ok, env := PassContent(h, env, len);
        if ok {
          BufErase(len);
        }
      }
    }

    method ReadContent(h: Handlers<S>, env0: S) returns (more: bool, ok: bool, env: S)
      requires Valid()
      modifies `bufSpos, `state, `isValid
      ensures Valid() && Did(MultipartSpec.ReadContent(Delimiter(boundary), h, old(View(env0))), more, ok, env)
    {
      if |crlfDashBoundary| > bufEpos - bufSpos {
        return false, true, env0;
      }
      var pos := BufFind(crlfDashBoundary);
      if pos < bufEpos - bufSpos {
        more, ok, env := TakeContent(h, env0, pos);
      } else {
        more, ok, env := PassMost(h, env0);
      }
    }

    method AfterDelimiter(env: S) returns (more: bool, ok: bool)
      requires Valid()
      modifies `bufSpos, `state, `isValid
      ensures Valid() && Did(MultipartSpec.AfterDelimiter(old(View(env))), more, ok, env)
    {
      if |CRLF| > bufEpos - bufSpos {
        return false, true;
      }
      var crlf := StartWith(buf, bufSpos, bufEpos, CRLF);
      if crlf {
        BufErase(|CRLF|);
        state := 1;
        return true, true;
      }
      if |DASH| > bufEpos - bufSpos {
        return false, true;
      }
      var dash := StartWith(buf, bufSpos, bufEpos, DASH);
      if !dash {
        return false, true;
      }
      BufErase(|DASH|);
      isValid := true;
      BufErase(bufEpos - bufSpos);
      return true, true;
    }

    /** One round of the loop over the buffer. */
    method Step(h: Handlers<S>, env0: S) returns (more: bool, ok: bool, env: S)
      requires Valid() && Contents() != []
      modifies `bufSpos, `state, `file, `isValid
      ensures Valid() && Did(MultipartSpec.Step(boundary, h, old(View(env0))), more, ok, env)
    {
      env := env0;
      if state == 0 {
        more, ok := SkipPreamble(env);
      } else if state == 1 {
        file := NO_DATA;
        state := 2;
        more, ok := true, true;
      } else if state == 2 {
        more, ok, env := ReadHeaders(h, env);
      } else if state == 3 {
        more, ok, env := ReadContent(h, env);
      } else {
        more, ok := AfterDelimiter(env);
      }
    }

    /** One call of the parser: what it passes to the callbacks, what it keeps and what it answers. */
    method Parse(data: string, h: Handlers<S>, env0: S) returns (ok: bool, env: S)
      requires Valid()
      modifies this
      ensures Valid() && (View(env), ok) == MultipartSpec.Parse(boundary, h, old(View(env0)), data)
    {
      BufAppend(data);
      env := env0;
      ghost var whole := Run(boundary, h, View(env));
      while bufEpos - bufSpos > 0
        invariant Valid() && Run(boundary, h, View(env)) == whole
        decreases Left(View(env))
      {
        var more: bool;
        more, ok, env := Step(h, env);
        if !more {
          return;
        }
      }
      ok := true;
    }
  }
}
