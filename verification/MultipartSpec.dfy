/**
  The incremental multipart/form-data parser as a function of its state and its input, and the theorem
  that it does not care how a body is cut into pieces.
 */
module MultipartSpec {
  import opened Search
  import opened Sequences
  import opened Wire

  const DASH := "--"

  /** What a part header announces.  */
  datatype FormData = FormData(name: string, filename: string, contentType: string)

  const NO_DATA := FormData("", "", "")

  /** What the parser calls: the interpretation of one header line, and the two callbacks of the client,
      whose own state is `S`.  Each also says whether to go on. */
  datatype Handlers<!S> = Handlers(line: (FormData, string) -> (FormData, bool),
                                   part: (S, FormData) -> (S, bool),
                                   content: (S, string) -> (S, bool))

  datatype Parser<S> = Parser(state: nat, isValid: bool, file: FormData, buffer: string, env: S)

  datatype Outcome<S> = Again(p: Parser<S>) | Stop(p: Parser<S>, ok: bool)

  function Opening(boundary: string): string {
    DASH + boundary + CRLF
  }

  function Delimiter(boundary: string): string {
    CRLF + DASH + boundary
  }

  /** The bytes left and, while a part has just ended, the step that opens the next one. */
  function Left<S>(p: Parser<S>): nat {
    2 * |p.buffer| + if p.state == 1 then 1 else 0
  }

  function SkipPreamble<S>(opening: string, p: Parser<S>): (o: Outcome<S>)
    requires opening != []
    ensures o.Again? ==> |o.p.buffer| < |p.buffer| && o.p.state == 1
  {
    var rest := p.buffer[Find(p.buffer, opening)..];
    if |opening| > |rest| then Stop(p.(buffer := rest), true)
    else if !(opening <= rest) then Stop(p.(buffer := rest), false)
    else Again(p.(buffer := rest[|opening|..], state := 1))
  }

  /** Reads header lines until the empty one, or until no complete line is left. */
  function HeaderLines<S>(h: Handlers<S>, p: Parser<S>): (o: Outcome<S>)
    ensures o.Again? ==> |o.p.buffer| < |p.buffer| && o.p.state == 3
    ensures o.Stop? ==> o.p.state == p.state
    decreases |p.buffer|
  {
    var pos := Find(p.buffer, CRLF);
    if pos == |p.buffer| then Stop(p, true)
    else
      FindFits(p.buffer, CRLF);
      if pos == 0 then
        var (env, ok) := h.part(p.env, p.file);
        if ok then Again(p.(env := env, buffer := p.buffer[2..], state := 3))
        else Stop(p.(env := env, isValid := false), false)
      else
        var (file, ok) := h.line(p.file, p.buffer[..pos]);
        if ok then HeaderLines(h, p.(file := file, buffer := p.buffer[pos + 2..]))
        else Stop(p.(file := file, isValid := false), false)
  }

  function ReadHeaders<S>(h: Handlers<S>, p: Parser<S>): (o: Outcome<S>)
    ensures o.Again? ==> |o.p.buffer| < |p.buffer| && o.p.state == 3
    ensures o.Stop? ==> o.p.state == p.state
  {
    if Find(p.buffer, CRLF) > HEADER_MAX_LENGTH then Stop(p, false) else HeaderLines(h, p)
  }

  /** Passes on the content before the delimiter; without one, all that cannot be part of it. */
  function ReadContent<S>(delimiter: string, h: Handlers<S>, p: Parser<S>): (o: Outcome<S>)
    requires delimiter != []
    ensures o.Again? ==> |o.p.buffer| < |p.buffer| && o.p.state == 4
  {
    if |delimiter| > |p.buffer| then Stop(p, true)
    else
      var pos := Find(p.buffer, delimiter);
      if pos < |p.buffer| then
        FindFits(p.buffer, delimiter);
        var (env, ok) := h.content(p.env, p.buffer[..pos]);
        if ok then Again(p.(env := env, buffer := p.buffer[pos + |delimiter|..], state := 4))
        else Stop(p.(env := env, isValid := false), false)
      else
        var len := |p.buffer| - |delimiter|;
        if len > 0 then
          var (env, ok) := h.content(p.env, p.buffer[..len]);
          if ok then Stop(p.(env := env, buffer := p.buffer[len..]), true)
          else Stop(p.(env := env, isValid := false), false)
        else Stop(p, true)
  }

  /** Another part, or the end of the body, whose epilogue is dropped. */
  function AfterDelimiter<S>(p: Parser<S>): (o: Outcome<S>)
    ensures o.Again? ==> |o.p.buffer| < |p.buffer| && (o.p.state == 1 || o.p.state == p.state)
  {
    if |p.buffer| < 2 then Stop(p, true)
    else if CRLF <= p.buffer then Again(p.(buffer := p.buffer[2..], state := 1))
    else if DASH <= p.buffer then Again(p.(buffer := [], isValid := true))
    else Stop(p, true)
  }

  function Step<S>(boundary: string, h: Handlers<S>, p: Parser<S>): (o: Outcome<S>)
    requires p.state <= 4 && p.buffer != []
    ensures o.Again? ==> Left(o.p) < Left(p) && o.p.state <= 4
    ensures o.p.state <= 4
  {
    match p.state
    case 0 => SkipPreamble(Opening(boundary), p)
    case 1 => Again(p.(file := NO_DATA, state := 2))
    case 2 => ReadHeaders(h, p)
    case 3 => ReadContent(Delimiter(boundary), h, p)
    case _ => AfterDelimiter(p)
  }

  /** The loop over the buffer: the parser when it wants more input or gives up, and which of the two. */
  function Run<S>(boundary: string, h: Handlers<S>, p: Parser<S>): (r: (Parser<S>, bool))
    requires p.state <= 4
    ensures r.0.state <= 4
    decreases Left(p)
  {
    if p.buffer == [] then (p, true)
    else match Step(boundary, h, p)
      case Again(q) => Run(boundary, h, q)
      case Stop(q, ok) => (q, ok)
  }

  /** One call of `parse`. */
  function Parse<S>(boundary: string, h: Handlers<S>, p: Parser<S>, data: string): (r: (Parser<S>, bool))
    requires p.state <= 4
    ensures r.0.state <= 4
  {
    Run(boundary, h, p.(buffer := p.buffer + data))
  }

  /** A call for each piece, up to the first that gives up. */
  function ParseAll<S>(boundary: string, h: Handlers<S>, p: Parser<S>, pieces: seq<string>): (r: (Parser<S>, bool))
    requires p.state <= 4
    decreases |pieces|
  {
    if pieces == [] then (p, true)
    else
      var (q, ok) := Parse(boundary, h, p, pieces[0]);
      if ok then ParseAll(boundary, h, q, pieces[1..]) else (q, false)
  }

  function Fresh<S>(env: S): Parser<S> {
    Parser(0, false, NO_DATA, [], env)
  }

  // ---------------------------------------------------------------- what the cutting must respect

  /** Each complete header line, and the incomplete one at the end, keeps within the limit however its
      line end is cut. */
  ghost predicate LinesFit(text: string)
    decreases |text|
  {
    var pos := Find(text, CRLF);
    if pos == |text| then pos <= HEADER_MAX_LENGTH
    else pos == 0 || (FindFits(text, CRLF); pos < HEADER_MAX_LENGTH && LinesFit(text[pos + 2..]))
  }

  /** No line end except at the very end. */
  ghost predicate QuietEpilogue(text: string) {
    forall i :: 0 <= i < |text| - 2 ==> !(text[i] == '\r' && text[i + 1] == '\n')
  }

  /** Every header the uncut run reads fits. */
  ghost predicate Fitting<S>(boundary: string, h: Handlers<S>, p: Parser<S>)
    requires p.state <= 4
    decreases Left(p)
  {
    p.buffer == [] ||
    (&& (p.state == 2 ==> LinesFit(p.buffer))
     && (Step(boundary, h, p).Again? ==> Fitting(boundary, h, Step(boundary, h, p).p)))
  }

  /** What follows the close delimiter is no further part. */
  ghost predicate Quiet<S>(boundary: string, h: Handlers<S>, p: Parser<S>)
    requires p.state <= 4
    decreases Left(p)
  {
    p.buffer == [] ||
    (&& (p.state == 4 && DASH <= p.buffer ==> QuietEpilogue(p.buffer[2..]))
     && (Step(boundary, h, p).Again? ==> Quiet(boundary, h, Step(boundary, h, p).p)))
  }

  ghost predicate Regular<S>(boundary: string, h: Handlers<S>, p: Parser<S>)
    requires p.state <= 4
  {
    Fitting(boundary, h, p) && Quiet(boundary, h, p)
  }

  /** Callbacks that succeed, and for which content in two pieces is the same as in one. */
  ghost predicate Appending<S(!new)>(h: Handlers<S>) {
    (forall s: S, file: FormData :: h.part(s, file).1)
    && (forall s: S, data: string :: h.content(s, data).1)
    && (forall s: S, a: string, b: string :: h.content(h.content(s, a).0, b).0 == h.content(s, a + b).0)
  }

  function Fed<S>(p: Parser<S>, b: string): Parser<S> {
    p.(buffer := p.buffer + b)
  }

  /** What a client can see of a finished call. */
  ghost predicate SameToClient<S>(r: (Parser<S>, bool), q: (Parser<S>, bool)) {
    r.1 == q.1 && r.0.isValid == q.0.isValid && r.0.env == q.0.env
  }

  // ---------------------------------------------------------------- one step with more input

  lemma LimitHolds(x: string, b: string)
    requires LinesFit(x + b)
    ensures Find(x, CRLF) <= HEADER_MAX_LENGTH && Find(x + b, CRLF) <= HEADER_MAX_LENGTH
  {
    if Contains(x, CRLF) {
      FindInLonger(x, CRLF, b);
    } else if x != [] {
      FindPastAbsence(x, CRLF, |x| - 1, b);
    }
  }

  /** How the outcome `o` for a buffer and the outcome `more` for a longer one go together. */
  ghost predicate Continues<S>(o: Outcome<S>, more: Outcome<S>, b: string) {
    match o
    case Again(q) => more == Again(Fed(q, b))
    case Stop(q, ok) => !ok ==> more.Stop? && !more.ok && more.p.env == q.env && more.p.isValid == q.isValid
  }

  /** A complete header line is read the same whatever follows it. */
  lemma LineThenMore<S>(h: Handlers<S>, p: Parser<S>, b: string, pos: nat)
    requires pos != 0 && Contains(p.buffer, CRLF) && pos == Find(p.buffer, CRLF)
    ensures pos + 2 <= |p.buffer|
      && var (file, ok) := h.line(p.file, p.buffer[..pos]);
         var next := p.(file := file, buffer := p.buffer[pos + 2..]);
         if ok then HeaderLines(h, Fed(p, b)) == HeaderLines(h, Fed(next, b))
         else Continues(HeaderLines(h, p), HeaderLines(h, Fed(p, b)), b)
  {
    FindInLonger(p.buffer, CRLF, b);
    FindFits(p.buffer, CRLF);
    CutBefore(p.buffer, b, pos, 2);
  }

  lemma EmptyLineThenMore<S>(h: Handlers<S>, p: Parser<S>, b: string)
    requires Contains(p.buffer, CRLF) && 0 == Find(p.buffer, CRLF)
    ensures Continues(HeaderLines(h, p), HeaderLines(h, Fed(p, b)), b)
  {
    FindInLonger(p.buffer, CRLF, b);
    FindFits(p.buffer, CRLF);
    CutBefore(p.buffer, b, 0, 2);
  }

  lemma LinesFitAfter(x: string, b: string, pos: nat)
    requires pos != 0 && Contains(x, CRLF) && pos == Find(x, CRLF)
    ensures pos + 2 <= |x| && (LinesFit(x + b) ==> LinesFit(x[pos + 2..] + b))
  {
    FindInLonger(x, CRLF, b);
    FindFits(x, CRLF);
    CutBefore(x, b, pos, 2);
  }

  /** Lines that are read before a cut need not be read again, and an incomplete one waits. */
  lemma {:induction false} HeaderLinesResume<S>(h: Handlers<S>, p: Parser<S>, b: string)
    ensures var o := HeaderLines(h, p);
            Continues(o, HeaderLines(h, Fed(p, b)), b)
            && (o.Stop? && o.ok ==>
                  HeaderLines(h, Fed(p, b)) == HeaderLines(h, Fed(o.p, b)) && (o.p == p || Contains(p.buffer, CRLF))
                  && (LinesFit(p.buffer + b) ==> LinesFit(o.p.buffer + b)))
    decreases |p.buffer|
  {
    var pos := Find(p.buffer, CRLF);
    if pos < |p.buffer| {
      if pos == 0 {
        EmptyLineThenMore(h, p, b);
      } else {
        LineThenMore(h, p, b, pos);
        LinesFitAfter(p.buffer, b, pos);
        var (file, ok) := h.line(p.file, p.buffer[..pos]);
        if ok {
          HeaderLinesResume(h, p.(file := file, buffer := p.buffer[pos + 2..]), b);
        }
      }
    }
  }

  lemma ContentTwice<S(!new)>(h: Handlers<S>, env: S, a: string, b: string)
    requires Appending(h)
    ensures h.content(env, a).1 && h.content(env, a + b).1 && h.content(h.content(env, a).0, b) == h.content(env, a + b)
  {
  }

  lemma AtDelimiter<S>(d: string, h: Handlers<S>, p: Parser<S>, k: nat, before: string, after: string)
    requires d != [] && Contains(p.buffer, d) && k == Find(p.buffer, d) && k + |d| <= |p.buffer|
    requires before == p.buffer[..k] && after == p.buffer[k + |d|..]
    ensures ReadContent(d, h, p)
            == if h.content(p.env, before).1 then
                 Again(p.(env := h.content(p.env, before).0, buffer := after, state := 4))
               else Stop(p.(env := h.content(p.env, before).0, isValid := false), false)
  {
  }

  lemma ContentThenDelimiter<S(!new)>(d: string, h: Handlers<S>, p: Parser<S>, first: string, rest: string)
    requires Appending(h) && d != [] && Contains(rest, d)
    requires Find(first + rest, d) == |first| + Find(rest, d)
    ensures ReadContent(d, h, p.(buffer := first + rest))
            == ReadContent(d, h, p.(env := h.content(p.env, first).0, buffer := rest))
  {
    var k := Find(rest, d);
    FindFits(rest, d);
    CutAfter(first, rest, k, |d|);
    CutAfter(first, rest, k, 0);
    ContentTwice(h, p.env, first, rest[..k]);
    AtDelimiter(d, h, p.(buffer := first + rest), |first| + k, first + rest[..k], rest[k + |d|..]);
    AtDelimiter(d, h, p.(env := h.content(p.env, first).0, buffer := rest), k, rest[..k], rest[k + |d|..]);
  }

  lemma ContentThenMore<S(!new)>(d: string, h: Handlers<S>, p: Parser<S>, first: string, rest: string)
    requires Appending(h) && d != [] && first != [] && |rest| >= |d| && !Contains(rest, d) && !Contains(first + rest, d)
    ensures ReadContent(d, h, p.(buffer := first + rest))
            == ReadContent(d, h, p.(env := h.content(p.env, first).0, buffer := rest))
  {
    var len := |rest| - |d|;
    CutAfter(first, rest, len, 0);
    ContentTwice(h, p.env, first, rest[..len]);
    if len == 0 {
      assert first + rest[..0] == first;
      assert rest[0..] == rest;
    }
  }

  lemma ContentKept<S(!new)>(d: string, h: Handlers<S>, p: Parser<S>, first: string, tail: string, b: string)
    requires Appending(h) && d != [] && first != [] && |tail| == |d| && !Contains(first + tail, d)
    ensures ReadContent(d, h, p.(buffer := first + (tail + b)))
            == ReadContent(d, h, p.(env := h.content(p.env, first).0, buffer := tail + b))
  {
    FindPastPrefix(first, tail, d, b);
    if Contains(tail + b, d) {
      ContentThenDelimiter(d, h, p, first, tail + b);
    } else {
      ContentThenMore(d, h, p, first, tail + b);
    }
  }

  /** With no delimiter in sight, what is passed on now and what is kept give, with more input, the step
      that the whole would have given. */
  lemma ContentResume<S(!new)>(d: string, h: Handlers<S>, p: Parser<S>, b: string)
    requires Appending(h) && d != [] && |p.buffer| >= |d| && !Contains(p.buffer, d)
    ensures var o := ReadContent(d, h, p);
            o.Stop? && o.ok && ReadContent(d, h, Fed(p, b)) == ReadContent(d, h, Fed(o.p, b))
  {
    var len := |p.buffer| - |d|;
    if len > 0 {
      var first, tail := p.buffer[..len], p.buffer[len..];
      assert first + tail == p.buffer;
      assert first + (tail + b) == p.buffer + b;
      ContentKept(d, h, p, first, tail, b);
      assert ReadContent(d, h, p) == Stop(p.(env := h.content(p.env, first).0, buffer := tail), true);
    }
  }

  lemma AfterDelimiterResume<S>(p: Parser<S>, b: string)
    requires p.state == 4 && !(DASH <= p.buffer)
    ensures Continues(AfterDelimiter(p), AfterDelimiter(Fed(p, b)), b)
    ensures AfterDelimiter(p).Stop? ==> AfterDelimiter(p).p == p
  {
    if |p.buffer| >= 2 {
      CutBefore(p.buffer, b, 2, 0);
    }
  }

  predicate Refuses<S>(o: Outcome<S>) {
    o.Stop? && !o.ok
  }

  /** Where the limit does not come in between, the header state resumes; where it does, it refuses. */
  lemma HeadersResume<S>(h: Handlers<S>, p: Parser<S>, b: string)
    ensures var o, more := ReadHeaders(h, p), ReadHeaders(h, Fed(p, b));
      (o.Again? || LinesFit(p.buffer + b) ==> Continues(o, more, b))
      && (o.Stop? && o.ok ==> ReadHeaders(h, Fed(o.p, b)) == more || Refuses(ReadHeaders(h, Fed(o.p, b))))
  {
    HeaderLinesResume(h, p, b);
    if Contains(p.buffer, CRLF) {
      FindInLonger(p.buffer, CRLF, b);
    }
    if LinesFit(p.buffer + b) {
      LimitHolds(p.buffer, b);
    }
  }

  lemma FittingHeadersResume<S>(h: Handlers<S>, p: Parser<S>, b: string)
    requires LinesFit(p.buffer + b)
    ensures var o := ReadHeaders(h, p);
      o.Stop? && o.ok ==> ReadHeaders(h, Fed(p, b)) == ReadHeaders(h, Fed(o.p, b)) && LinesFit(o.p.buffer + b)
  {
    LimitHolds(p.buffer, b);
    HeaderLinesResume(h, p, b);
    var o := HeaderLines(h, p);
    if o.Stop? && o.ok {
      LimitHolds(o.p.buffer, b);
    }
  }

  lemma ReadContentResume<S(!new)>(d: string, h: Handlers<S>, p: Parser<S>, b: string)
    requires Appending(h) && d != []
    ensures var o := ReadContent(d, h, p);
      Continues(o, ReadContent(d, h, Fed(p, b)), b)
      && (o.Stop? ==> o.ok && ReadContent(d, h, Fed(p, b)) == ReadContent(d, h, Fed(o.p, b)))
  {
    if |p.buffer| >= |d| {
      if Contains(p.buffer, d) {
        FindInLonger(p.buffer, d, b);
        FindFits(p.buffer, d);
        CutBefore(p.buffer, b, Find(p.buffer, d), |d|);
      } else {
        ContentResume(d, h, p, b);
      }
    }
  }

  /** The headers of this step fit, if it is one that reads headers. */
  ghost predicate StepFits<S>(p: Parser<S>) {
    p.state == 2 ==> LinesFit(p.buffer)
  }

  /** What a waiting step has left over: with more input it does the step of the whole, unless it meets the
      limit on headers. */
  ghost predicate WaitsWell<S>(boundary: string, h: Handlers<S>, p: Parser<S>, q: Parser<S>, b: string)
    requires p.state <= 4 && p.buffer != [] && q.state <= 4
  {
    q.state == p.state && (p.state == 4 ==> q == p) && (StepFits(Fed(p, b)) ==> StepFits(Fed(q, b)))
    && (Fed(q, b).buffer != [] ==>
          var again, more := Step(boundary, h, Fed(q, b)), Step(boundary, h, Fed(p, b));
          again == more || (Refuses(again) && !StepFits(Fed(p, b))))
  }

  lemma HeaderStepResume<S>(boundary: string, h: Handlers<S>, p: Parser<S>, b: string)
    requires p.state == 2 && p.buffer != []
    ensures var o, more := Step(boundary, h, p), Step(boundary, h, Fed(p, b));
      (o.Again? || StepFits(Fed(p, b)) ==> Continues(o, more, b))
      && (o.Stop? && o.ok ==> WaitsWell(boundary, h, p, o.p, b))
  {
    HeadersResume(h, p, b);
    if LinesFit(p.buffer + b) {
      FittingHeadersResume(h, p, b);
    }
  }

  /** A step that goes on goes on in the same way with more input; one that waits has lost nothing by not
      having the rest yet. */
  lemma StepResume<S(!new)>(boundary: string, h: Handlers<S>, p: Parser<S>, b: string)
    requires Appending(h) && 1 <= p.state <= 4 && p.buffer != [] && !(p.state == 4 && DASH <= p.buffer)
    ensures var o, more := Step(boundary, h, p), Step(boundary, h, Fed(p, b));
      (o.Again? || StepFits(Fed(p, b)) ==> Continues(o, more, b)) && (o.Again? ==> o.p.state != 0)
      && (o.Stop? && o.ok ==> WaitsWell(boundary, h, p, o.p, b))
  {
    match p.state
    case 1 =>
    case 2 => HeaderStepResume(boundary, h, p, b);
    case 3 => ReadContentResume(Delimiter(boundary), h, p, b);
    case _ => AfterDelimiterResume(p, b);
  }

  // ---------------------------------------------------------------- whole runs

  lemma QuietSuffix(a: string, b: string)
    requires QuietEpilogue(a + b)
    ensures QuietEpilogue(b)
  {
    forall i | 0 <= i < |b| - 2
      ensures !(b[i] == '\r' && b[i + 1] == '\n')
    {
      assert (a + b)[|a| + i] == b[i] && (a + b)[|a| + i + 1] == b[i + 1];
    }
  }

  /** What follows the close delimiter changes nothing a client can see. */
  lemma QuietRun<S(!new)>(boundary: string, h: Handlers<S>, p: Parser<S>)
    requires p.state == 4 && QuietEpilogue(p.buffer)
    ensures Fitting(boundary, h, p) && Quiet(boundary, h, p)
    ensures p.isValid ==> SameToClient(Run(boundary, h, p), (p, true))
  {
    if |p.buffer| >= 2 {
      assert p.buffer == p.buffer[..2] + p.buffer[2..];
      QuietSuffix(p.buffer[..2], p.buffer[2..]);
      assert p.buffer[0] == '\r' && p.buffer[1] == '\n' ==> |p.buffer| == 2;
      var o := Step(boundary, h, p);
      if o.Again? {
        assert o.p.buffer == [];
        assert Run(boundary, h, o.p) == (o.p, true);
      }
    }
  }

  /** What is left to parse after the first part of the input is as quiet and as fitting as the whole.  If the
      whole fits, or what is left is accepted, it gives a client the same. */
  ghost predicate Resumes<S>(boundary: string, h: Handlers<S>, p: Parser<S>, b: string)
    requires 1 <= p.state <= 4
  {
    var r, whole := Run(boundary, h, p), Run(boundary, h, Fed(p, b));
    var fits := Fitting(boundary, h, Fed(p, b));
    if r.1 then
      r.0.state != 0 && Quiet(boundary, h, Fed(r.0, b)) && (fits ==> Fitting(boundary, h, Fed(r.0, b)))
      && (fits || Run(boundary, h, Fed(r.0, b)).1 ==> SameToClient(Run(boundary, h, Fed(r.0, b)), whole))
    else fits ==> SameToClient(r, whole)
  }

  lemma GoesOn<S(!new)>(boundary: string, h: Handlers<S>, p: Parser<S>, q: Parser<S>, b: string)
    requires 1 <= p.state <= 4 && p.buffer != [] && Quiet(boundary, h, Fed(p, b))
    requires Step(boundary, h, p) == Again(q) && Step(boundary, h, Fed(p, b)) == Again(Fed(q, b))
    ensures q.state <= 4 && Quiet(boundary, h, Fed(q, b))
    ensures 1 <= q.state && Resumes(boundary, h, q, b) ==> Resumes(boundary, h, p, b)
  {
  }

  lemma GivesUp<S(!new)>(boundary: string, h: Handlers<S>, p: Parser<S>, q: Parser<S>, b: string)
    requires 1 <= p.state <= 4 && p.buffer != [] && Step(boundary, h, p) == Stop(q, false)
    requires StepFits(Fed(p, b)) ==> Continues(Stop(q, false), Step(boundary, h, Fed(p, b)), b)
    ensures Resumes(boundary, h, p, b)
  {
  }

  lemma Waits<S(!new)>(boundary: string, h: Handlers<S>, p: Parser<S>, q: Parser<S>, b: string)
    requires 1 <= p.state <= 4 && p.buffer != [] && q.state <= 4 && Quiet(boundary, h, Fed(p, b))
    requires Step(boundary, h, p) == Stop(q, true) && WaitsWell(boundary, h, p, q, b)
    ensures Resumes(boundary, h, p, b)
  {
    if Fed(q, b).buffer == [] {
      assert Fed(q, b) == q && Fed(p, b) == p;
    }
  }

  /** Cutting the input once, anywhere after the opening line, changes nothing a client can see. */
  lemma {:induction false} Resume<S(!new)>(boundary: string, h: Handlers<S>, p: Parser<S>, b: string)
    requires Appending(h) && 1 <= p.state <= 4 && Quiet(boundary, h, Fed(p, b))
    ensures Resumes(boundary, h, p, b)
    decreases Left(p)
  {
    if p.buffer != [] {
      if p.state == 4 && DASH <= p.buffer {
        CloseResume(boundary, h, p, b);
      } else {
        StepResume(boundary, h, p, b);
        match Step(boundary, h, p)
        case Again(q) =>
          GoesOn(boundary, h, p, q, b);
          Resume(boundary, h, q, b);
        case Stop(q, ok) =>
          if ok {
            Waits(boundary, h, p, q, b);
          } else {
            GivesUp(boundary, h, p, q, b);
          }
      }
    }
  }

  lemma CloseResume<S(!new)>(boundary: string, h: Handlers<S>, p: Parser<S>, b: string)
    requires p.state == 4 && DASH <= p.buffer && Quiet(boundary, h, Fed(p, b))
    ensures Resumes(boundary, h, p, b)
  {
    var closed := p.(buffer := [], isValid := true);
    assert DASH <= p.buffer + b;
    CutBefore(p.buffer, b, 2, 0);
    QuietSuffix(p.buffer[2..], b);
    assert Run(boundary, h, closed) == (closed, true);
    assert p.buffer[0] == '-' && Step(boundary, h, p) == Again(closed);
    assert Fed(p, b).buffer[0] == '-' && Step(boundary, h, Fed(p, b)) == Again(closed);
    assert Fed(closed, b).buffer == b;
    QuietRun(boundary, h, Fed(closed, b));
  }

  /** What the calls for the pieces give a client is what one call gives it, if the whole fits or the pieces
      are accepted. */
  ghost predicate PiecesAgree<S>(boundary: string, h: Handlers<S>, p: Parser<S>, pieces: seq<string>)
    requires p.state <= 4
  {
    Fitting(boundary, h, Fed(p, Concat(pieces))) || ParseAll(boundary, h, p, pieces).1 ==>
      SameToClient(ParseAll(boundary, h, p, pieces), Parse(boundary, h, p, Concat(pieces)))
  }

  lemma {:induction false} PiecesResume<S(!new)>(boundary: string, h: Handlers<S>, p: Parser<S>, pieces: seq<string>)
    requires Appending(h) && 1 <= p.state <= 4 && pieces != [] && Quiet(boundary, h, Fed(p, Concat(pieces)))
    ensures PiecesAgree(boundary, h, p, pieces)
    decreases |pieces|
  {
    var rest := Concat(pieces[1..]);
    assert p.buffer + Concat(pieces) == (p.buffer + pieces[0]) + rest;
    Resume(boundary, h, Fed(p, pieces[0]), rest);
    var r := Parse(boundary, h, p, pieces[0]);
    if |pieces| == 1 {
      assert p.buffer + Concat(pieces) == p.buffer + pieces[0];
    } else if r.1 {
      PiecesResume(boundary, h, r.0, pieces[1..]);
    }
  }

  /** The opening line is not split: some piece holds its first occurrence whole (or none occurs). */
  ghost predicate OpeningWhole(opening: string, pieces: seq<string>)
    requires opening != []
  {
    pieces == []
    || Contains(pieces[0], opening)
    || (Find(Concat(pieces), opening) >= |pieces[0]| && OpeningWhole(opening, pieces[1..]))
  }

  lemma PreambleResume<S(!new)>(boundary: string, h: Handlers<S>, p: Parser<S>, a: string, b: string)
    requires p.state == 0 && p.buffer == [] && Contains(a, Opening(boundary))
    ensures var o := Step(boundary, h, p.(buffer := a));
      o.Again? && o.p.state == 1 && Step(boundary, h, p.(buffer := a + b)) == Again(Fed(o.p, b))
  {
    var opening := Opening(boundary);
    FindInLonger(a, opening, b);
    FindIsFirst(a, opening);
    var k := Find(a, opening);
    CutBefore(a, b, k, 0);
    CutBefore(a[k..], b, |opening|, 0);
    assert opening <= a[k..] + b;
  }

  lemma SameRestSameStep<S(!new)>(opening: string, p: Parser<S>, x: string, y: string)
    requires opening != [] && x[Find(x, opening)..] == y[Find(y, opening)..]
    ensures SkipPreamble(opening, p.(buffer := x)) == SkipPreamble(opening, p.(buffer := y))
  {
  }

  lemma StepDecidesRun<S(!new)>(boundary: string, h: Handlers<S>, p: Parser<S>, q: Parser<S>)
    requires p.state == 0 && q.state == 0 && p.buffer != [] && q.buffer != []
    requires SkipPreamble(Opening(boundary), p) == SkipPreamble(Opening(boundary), q)
    ensures Run(boundary, h, p) == Run(boundary, h, q)
    ensures Quiet(boundary, h, p) ==> Quiet(boundary, h, q)
    ensures Fitting(boundary, h, p) ==> Fitting(boundary, h, q)
  {
  }

  lemma NothingFound<S(!new)>(boundary: string, h: Handlers<S>, env: S, a: string)
    requires !Contains(a, Opening(boundary))
    ensures Parse(boundary, h, Fresh(env), a) == (Fresh(env), true)
    ensures Fitting(boundary, h, Fed(Fresh(env), a))
  {
    assert Fed(Fresh(env), a).buffer == a;
    assert a != [] ==> SkipPreamble(Opening(boundary), Fed(Fresh(env), a)) == Stop(Fresh(env), true);
  }

  /** A piece without the opening line is forgotten. */
  lemma PieceBeforeOpening<S(!new)>(boundary: string, h: Handlers<S>, env: S, a: string, b: string)
    requires Find(a + b, Opening(boundary)) >= |a| && !Contains(a, Opening(boundary))
    ensures Parse(boundary, h, Fresh(env), a + b) == Parse(boundary, h, Fresh(env), b)
    ensures Quiet(boundary, h, Fed(Fresh(env), a + b)) ==> Quiet(boundary, h, Fed(Fresh(env), b))
    ensures Fitting(boundary, h, Fed(Fresh(env), a + b)) ==> Fitting(boundary, h, Fed(Fresh(env), b))
  {
    FindSkips(a, b, Opening(boundary));
    var start := Fresh(env);
    assert Fed(start, a + b) == start.(buffer := a + b) && Fed(start, b) == start.(buffer := b);
    if b == [] {
      assert !Contains(a + b, Opening(boundary));
      NothingFound(boundary, h, env, a + b);
    } else {
      CutAfter(a, b, Find(b, Opening(boundary)), 0);
      SameRestSameStep(Opening(boundary), start, a + b, b);
      StepDecidesRun(boundary, h, start.(buffer := a + b), start.(buffer := b));
    }
  }

  lemma PieceWithOpening<S(!new)>(boundary: string, h: Handlers<S>, env: S, pieces: seq<string>)
    requires Appending(h) && pieces != [] && Contains(pieces[0], Opening(boundary))
    requires Quiet(boundary, h, Fed(Fresh(env), Concat(pieces)))
    ensures PiecesAgree(boundary, h, Fresh(env), pieces)
  {
    var start, rest := Fresh(env), Concat(pieces[1..]);
    assert start.buffer + pieces[0] == pieces[0] && start.buffer + Concat(pieces) == pieces[0] + rest;
    PreambleResume(boundary, h, start, pieces[0], rest);
    var q := Step(boundary, h, start.(buffer := pieces[0])).p;
    Resume(boundary, h, q, rest);
    var r := Parse(boundary, h, start, pieces[0]);
    assert r == Run(boundary, h, q);
    assert Parse(boundary, h, start, Concat(pieces)) == Run(boundary, h, Fed(q, rest));
    if |pieces| == 1 {
      assert Fed(q, rest) == q;
    } else if r.1 {
      PiecesResume(boundary, h, r.0, pieces[1..]);
    }
  }

  /** Chunking independence: however a body is cut, the callbacks see the same parts with the same content
      and the parser ends in the same verdict as for the body in one piece, if its header lines fit however
      cut; and if they do not, so it does for every cutting that the parser accepts. */
  lemma {:induction false} CuttingDoesNotMatter<S(!new)>(boundary: string, h: Handlers<S>, env: S, pieces: seq<string>)
    requires Appending(h) && OpeningWhole(Opening(boundary), pieces)
    requires Quiet(boundary, h, Fed(Fresh(env), Concat(pieces)))
    ensures Fitting(boundary, h, Fed(Fresh(env), Concat(pieces))) || ParseAll(boundary, h, Fresh(env), pieces).1 ==>
              SameToClient(ParseAll(boundary, h, Fresh(env), pieces), Parse(boundary, h, Fresh(env), Concat(pieces)))
    decreases |pieces|
  {
    if pieces == [] {
      assert Fed(Fresh(env), []) == Fresh(env);
    } else if Contains(pieces[0], Opening(boundary)) {
      PieceWithOpening(boundary, h, env, pieces);
    } else {
      NothingFound(boundary, h, env, pieces[0]);
      PieceBeforeOpening(boundary, h, env, pieces[0], Concat(pieces[1..]));
      CuttingDoesNotMatter(boundary, h, env, pieces[1..]);
    }
  }

  /** The pieces from the first one on that holds an opening line whole. */
  function FromOpening(opening: string, pieces: seq<string>): seq<string>
    requires opening != []
  {
    if pieces == [] || Contains(pieces[0], opening) then pieces else FromOpening(opening, pieces[1..])
  }

  /** What any cutting means, also one that splits the opening line: what comes before the first piece that
      holds an opening line whole is forgotten, and the rest is to a client as in one piece. */
  lemma {:induction false} AnyCutting<S(!new)>(boundary: string, h: Handlers<S>, env: S, pieces: seq<string>)
    requires Appending(h)
    requires Quiet(boundary, h, Fed(Fresh(env), Concat(FromOpening(Opening(boundary), pieces))))
    ensures var text := Concat(FromOpening(Opening(boundary), pieces));
            Fitting(boundary, h, Fed(Fresh(env), text)) || ParseAll(boundary, h, Fresh(env), pieces).1 ==>
              SameToClient(ParseAll(boundary, h, Fresh(env), pieces), Parse(boundary, h, Fresh(env), text))
    decreases |pieces|
  {
    if pieces == [] {
      assert Fed(Fresh(env), []) == Fresh(env);
    } else if Contains(pieces[0], Opening(boundary)) {
      PieceWithOpening(boundary, h, env, pieces);
    } else {
      NothingFound(boundary, h, env, pieces[0]);
      AnyCutting(boundary, h, env, pieces[1..]);
    }
  }

  /** The text has exactly one opening line. */
  ghost predicate OneOpening(opening: string, text: string) {
    (exists i: nat :: OccursAt(text, opening, i))
    && forall i: nat, j: nat :: OccursAt(text, opening, i) && OccursAt(text, opening, j) ==> i == j
  }

  lemma OccursLater(a: string, b: string, s: string, i: nat)
    requires i <= |b|
    ensures OccursAt(a + b, s, |a| + i) <==> OccursAt(b, s, i)
  {
    assert (a + b)[|a| + i..] == b[i..];
  }

  lemma OccursInLonger(a: string, b: string, s: string, i: nat)
    requires OccursAt(a, s, i)
    ensures OccursAt(a + b, s, i)
  {
    assert (a + b)[i..] == a[i..] + b;
  }

  lemma {:induction false} NoPieceHolds(opening: string, pieces: seq<string>)
    requires opening != [] && forall i: nat :: !OccursAt(Concat(pieces), opening, i)
    ensures FromOpening(opening, pieces) == []
  {
    if pieces != [] {
      var a, b := pieces[0], Concat(pieces[1..]);
      assert Concat(pieces) == a + b;
      FindIsFirst(a, opening);
      if Contains(a, opening) {
        OccursInLonger(a, b, opening, Find(a, opening));
      }
      forall i: nat | i <= |b|
        ensures !OccursAt(b, opening, i)
      {
        OccursLater(a, b, opening, i);
      }
      NoPieceHolds(opening, pieces[1..]);
    }
  }

  /** If the only opening line is cut, no piece holds one. */
  lemma {:induction false} CutOpeningIsGone(opening: string, pieces: seq<string>)
    requires opening != [] && OneOpening(opening, Concat(pieces)) && !OpeningWhole(opening, pieces)
    ensures FromOpening(opening, pieces) == []
  {
    var a, b := pieces[0], Concat(pieces[1..]);
    var k := Find(a + b, opening);
    FindIsFirst(a + b, opening);
    if k >= |a| {
      FindSkips(a, b, opening);
      OccursLater(a, b, opening, k - |a|);
      forall i: nat, j: nat | OccursAt(b, opening, i) && OccursAt(b, opening, j)
        ensures i == j
      {
        OccursLater(a, b, opening, i);
        OccursLater(a, b, opening, j);
      }
      CutOpeningIsGone(opening, pieces[1..]);
    } else {
      forall i: nat | i <= |b|
        ensures !OccursAt(b, opening, i)
      {
        OccursLater(a, b, opening, i);
      }
      NoPieceHolds(opening, pieces[1..]);
    }
  }

  /** The exact condition: a body with one opening line that is valid in one piece means the same to a client in
      these pieces exactly when the opening line is not split, if header lines fit or the pieces are accepted. */
  lemma OpeningDecides<S(!new)>(boundary: string, h: Handlers<S>, env: S, pieces: seq<string>)
    requires Appending(h) && Quiet(boundary, h, Fed(Fresh(env), Concat(pieces)))
    requires Fitting(boundary, h, Fed(Fresh(env), Concat(pieces))) || ParseAll(boundary, h, Fresh(env), pieces).1
    requires OneOpening(Opening(boundary), Concat(pieces))
    requires Parse(boundary, h, Fresh(env), Concat(pieces)).0.isValid
    ensures SameToClient(ParseAll(boundary, h, Fresh(env), pieces), Parse(boundary, h, Fresh(env), Concat(pieces)))
            <==> OpeningWhole(Opening(boundary), pieces)
  {
    if OpeningWhole(Opening(boundary), pieces) {
      CuttingDoesNotMatter(boundary, h, env, pieces);
    } else {
      CutOpeningIsGone(Opening(boundary), pieces);
      NothingIsSeen(boundary, h, env, pieces);
    }
  }

  /** Pieces of which none holds an opening line are accepted and mean nothing. */
  lemma {:induction false} NothingIsSeen<S(!new)>(boundary: string, h: Handlers<S>, env: S, pieces: seq<string>)
    requires FromOpening(Opening(boundary), pieces) == []
    ensures ParseAll(boundary, h, Fresh(env), pieces) == (Fresh(env), true)
  {
    if pieces != [] {
      NothingFound(boundary, h, env, pieces[0]);
      NothingIsSeen(boundary, h, env, pieces[1..]);
    }
  }

  /** An input: a body whose opening line is cut, with no further one in it, is accepted and means nothing,
      whatever it means in one piece. */
  lemma CutOpeningIsForgotten<S(!new)>(boundary: string, h: Handlers<S>, env: S, k: nat, rest: string)
    requires k < |Opening(boundary)| && !Contains(Opening(boundary)[k..] + rest, Opening(boundary))
    ensures Concat([Opening(boundary)[..k], Opening(boundary)[k..] + rest]) == Opening(boundary) + rest
    ensures ParseAll(boundary, h, Fresh(env), [Opening(boundary)[..k], Opening(boundary)[k..] + rest])
            == (Fresh(env), true)
  {
    var a, b := Opening(boundary)[..k], Opening(boundary)[k..] + rest;
    if Contains(a, Opening(boundary)) {
      FindFits(a, Opening(boundary));
    }
    NothingFound(boundary, h, env, a);
    NothingFound(boundary, h, env, b);
    assert [a, b][1..] == [b] && [b][1..] == [];
    assert ParseAll(boundary, h, Fresh(env), [b]) == ParseAll(boundary, h, Fresh(env), []);
    assert a + Opening(boundary)[k..] == Opening(boundary);
    Associate(a, Opening(boundary)[k..], rest);
    assert Concat([b]) == b + [] == b;
  }

  // ---------------------------------------------------------------- the limit on header lines

  lemma FindInPrefix(t: string, s: string, n: nat)
    requires s != [] && n <= |t|
    ensures Contains(t, s) && Find(t, s) + |s| <= n ==> Find(t[..n], s) == Find(t, s)
    ensures n < Find(t, s) + |s| ==> Find(t[..n], s) == n
  {
    FindIsFirst(t, s);
    FindIsFirst(t[..n], s);
    forall i: nat | i + |s| <= n
      ensures OccursAt(t[..n], s, i) == OccursAt(t, s, i)
    {
      assert t[..n][i..][..|s|] == t[i..][..|s|];
    }
    if Contains(t, s) && Find(t, s) + |s| <= n {
      assert OccursAt(t[..n], s, Find(t, s));
    }
  }

  /** A header line that the limit does not let pass. */
  predicate TooLong(y: string) {
    y != [] && Find(y, CRLF) > HEADER_MAX_LENGTH
  }

  /** Cut off what makes headers not fit: the lines before it, and it without the last character of its line
      end. */
  lemma {:induction false} LongLine<S>(h: Handlers<S>, p: Parser<S>) returns (x: string, y: string, z: string)
    requires !LinesFit(p.buffer) && !Refuses(HeaderLines(h, p))
    ensures p.buffer == x + y + z && TooLong(y)
    ensures var o := HeaderLines(h, p.(buffer := x)); o.Stop? && o.ok && o.p.buffer == []
    ensures x != [] ==> Find(x, CRLF) == Find(p.buffer, CRLF)
    decreases |p.buffer|
  {
    var text := p.buffer;
    var pos := Find(text, CRLF);
    if pos == |text| {
      x, y, z := [], text, [];
    } else if pos >= HEADER_MAX_LENGTH {
      y, z := CutInLineEnd(text);
      x := [];
    } else {
      FirstLineRead(h, p, pos);
      x, y, z := LongLine(h, AfterLine(h, p, pos));
      LineOnPrefix(h, p, pos, x);
      var line := text[..pos + 2];
      CutFurther(text, line, text[pos + 2..], x, y, z);
      x := line + x;
    }
  }

  lemma CutInLineEnd(text: string) returns (y: string, z: string)
    requires HEADER_MAX_LENGTH <= Find(text, CRLF) < |text|
    ensures text == [] + y + z && TooLong(y)
  {
    var pos := Find(text, CRLF);
    FindFits(text, CRLF);
    FindInPrefix(text, CRLF, pos + 1);
    y, z := text[..pos + 1], text[pos + 1..];
  }

  /** The parser behind a complete header line of `pos` characters. */
  function AfterLine<S>(h: Handlers<S>, p: Parser<S>, pos: nat): Parser<S>
    requires pos + 2 <= |p.buffer|
  {
    p.(file := h.line(p.file, p.buffer[..pos]).0, buffer := p.buffer[pos + 2..])
  }

  lemma FirstLineRead<S>(h: Handlers<S>, p: Parser<S>, pos: nat)
    requires 0 < pos == Find(p.buffer, CRLF) < |p.buffer|
    ensures pos + 2 <= |p.buffer|
    ensures HeaderLines(h, p) == if h.line(p.file, p.buffer[..pos]).1 then HeaderLines(h, AfterLine(h, p, pos))
                                 else Stop(p.(file := h.line(p.file, p.buffer[..pos]).0, isValid := false), false)
    ensures LinesFit(p.buffer) <==> pos < HEADER_MAX_LENGTH && LinesFit(p.buffer[pos + 2..])
  {
    FindFits(p.buffer, CRLF);
  }

  /** A complete line at the start is read the same whatever comes after it. */
  lemma LineOnPrefix<S>(h: Handlers<S>, p: Parser<S>, pos: nat, x: string)
    requires pos != 0 && Contains(p.buffer, CRLF) && pos == Find(p.buffer, CRLF) && h.line(p.file, p.buffer[..pos]).1
    ensures pos + 2 <= |p.buffer| && Find(p.buffer[..pos + 2] + x, CRLF) == pos
    ensures HeaderLines(h, p.(buffer := p.buffer[..pos + 2] + x))
            == HeaderLines(h, AfterLine(h, p, pos).(buffer := x))
  {
    FindFits(p.buffer, CRLF);
    FindInPrefix(p.buffer, CRLF, pos + 2);
    var short := p.(buffer := p.buffer[..pos + 2]);
    assert short.buffer[..pos] == p.buffer[..pos] && short.buffer[pos + 2..] == [] && [] + x == x;
    FindInLonger(short.buffer, CRLF, x);
    LineThenMore(h, short, x, pos);
  }

  /** The header section of a part is read the same whatever comes after it. */
  lemma {:induction false} SectionOnPrefix<S>(h: Handlers<S>, p: Parser<S>, q: Parser<S>, x: string)
    returns (head: string)
    requires HeaderLines(h, p) == Again(q)
    ensures p.buffer == head + q.buffer && Find(head + x, CRLF) == Find(p.buffer, CRLF)
    ensures HeaderLines(h, p.(buffer := head + x)) == Again(q.(buffer := x))
    decreases |p.buffer|
  {
    var pos := Find(p.buffer, CRLF);
    if pos == 0 {
      head := CRLF;
      EmptyLineOnPrefix(h, p, q, x);
    } else {
      FirstLineRead(h, p, pos);
      var more := SectionOnPrefix(h, AfterLine(h, p, pos), q, x);
      var line := p.buffer[..pos + 2];
      head := line + more;
      LineOnPrefix(h, p, pos, more + x);
      Associate(line, more, x);
      Associate(line, more, q.buffer);
      assert p.buffer == line + AfterLine(h, p, pos).buffer;
    }
  }

  lemma EmptyLineOnPrefix<S>(h: Handlers<S>, p: Parser<S>, q: Parser<S>, x: string)
    requires Contains(p.buffer, CRLF) && Find(p.buffer, CRLF) == 0 && HeaderLines(h, p) == Again(q)
    ensures p.buffer == CRLF + q.buffer && Find(CRLF + x, CRLF) == 0
    ensures HeaderLines(h, p.(buffer := CRLF + x)) == Again(q.(buffer := x))
  {
    FindIsFirst(p.buffer, CRLF);
    assert p.buffer[0..] == p.buffer;
    assert CRLF <= CRLF + x && (CRLF + x)[2..] == x;
  }

  lemma ContentOnPrefix<S(!new)>(d: string, h: Handlers<S>, p: Parser<S>, q: Parser<S>, x: string)
    returns (head: string)
    requires d != [] && ReadContent(d, h, p) == Again(q)
    ensures p.buffer == head + q.buffer && ReadContent(d, h, p.(buffer := head + x)) == Again(q.(buffer := x))
  {
    var pos := Find(p.buffer, d);
    FindFits(p.buffer, d);
    head := p.buffer[..pos + |d|];
    FindInPrefix(p.buffer, d, |head|);
    FindInLonger(head, d, x);
    assert (head + x)[..pos] == p.buffer[..pos] && (head + x)[|head|..] == x;
  }

  /** The parser stands before a header line with nothing in its buffer. */
  predicate Ready<S>(r: (Parser<S>, bool)) {
    r.1 && r.0.buffer == [] && (r.0.state == 1 || r.0.state == 2)
  }

  /** A step that goes on does so on the text it uses up, whatever comes after that. */
  lemma StepOnPrefix<S(!new)>(boundary: string, h: Handlers<S>, p: Parser<S>, q: Parser<S>, x: string)
    returns (head: string)
    requires 1 <= p.state <= 4 && p.buffer != [] && Step(boundary, h, p) == Again(q)
             && !(p.state == 4 && DASH <= p.buffer)
    ensures 1 <= q.state <= 4 && p.buffer == head + q.buffer
    ensures Ready(Run(boundary, h, q.(buffer := x))) ==> Ready(Run(boundary, h, p.(buffer := head + x)))
  {
    match p.state
    case 1 =>
      head := [];
      assert head + x == x && head + q.buffer == q.buffer;
    case 2 =>
      head := SectionOnPrefix(h, p, q, x);
      assert Step(boundary, h, p.(buffer := head + x)) == Again(q.(buffer := x));
    case 3 =>
      head := ContentOnPrefix(Delimiter(boundary), h, p, q, x);
      assert Step(boundary, h, p.(buffer := head + x)) == Again(q.(buffer := x));
    case _ =>
      head := CRLF;
      assert CRLF <= CRLF + x && (CRLF + x)[2..] == x;
      assert Step(boundary, h, p.(buffer := head + x)) == Again(q.(buffer := x));
  }

  /** Headers that do not fit can be cut so that the parser meets a line that is too long. */
  lemma {:induction false} CutBeforeLongLine<S(!new)>(boundary: string, h: Handlers<S>, p: Parser<S>)
    returns (x: string, y: string, z: string)
    requires 1 <= p.state <= 4 && Run(boundary, h, p).1 && !Fitting(boundary, h, p)
    ensures p.buffer == x + y + z && TooLong(y) && Ready(Run(boundary, h, p.(buffer := x)))
    decreases Left(p)
  {
    if p.state == 2 && !LinesFit(p.buffer) {
      x, y, z := LongLine(h, p);
    } else {
      var q := NextUnfitting(boundary, h, p);
      x, y, z := CutBeforeLongLine(boundary, h, q);
      var head := StepOnPrefix(boundary, h, p, q, x);
      JoinCut(head, x, y, z);
      x := head + x;
    }
  }

  lemma NextUnfitting<S(!new)>(boundary: string, h: Handlers<S>, p: Parser<S>) returns (q: Parser<S>)
    requires 1 <= p.state <= 4 && Run(boundary, h, p).1 && !Fitting(boundary, h, p) && StepFits(p)
    ensures p.buffer != [] && Step(boundary, h, p) == Again(q) && !(p.state == 4 && DASH <= p.buffer)
    ensures 1 <= q.state <= 4 && Left(q) < Left(p) && Run(boundary, h, q).1 && !Fitting(boundary, h, q)
  {
    q := Step(boundary, h, p).p;
    ClosingFits(boundary, h, p);
  }

  lemma ClosingFits<S(!new)>(boundary: string, h: Handlers<S>, p: Parser<S>)
    requires p.state <= 4
    ensures p.state == 4 && DASH <= p.buffer ==> Fitting(boundary, h, p)
  {
    if p.state == 4 && DASH <= p.buffer {
      assert p.buffer[0] == '-';
      assert Step(boundary, h, p).p.buffer == [];
    }
  }

  lemma JoinCut(head: string, x: string, y: string, z: string)
    ensures head + (x + y + z) == (head + x) + y + z
  {
    Associate(head, x + y, z);
    Associate(head, x, y);
  }

  lemma CutFurther(text: string, head: string, tail: string, x: string, y: string, z: string)
    requires |head| <= |text| && head == text[..|head|] && tail == text[|head|..] && tail == x + y + z
    ensures text == (head + x) + y + z
  {
    JoinCut(head, x, y, z);
  }

  lemma LongLineIsRefused<S>(boundary: string, h: Handlers<S>, p: Parser<S>, y: string)
    requires p.buffer == [] && (p.state == 1 || p.state == 2) && TooLong(y)
    ensures !Parse(boundary, h, p, y).1
  {
    assert [] + y == y;
    var q := p.(buffer := y, file := if p.state == 1 then NO_DATA else p.file, state := 2);
    assert Refuses(Step(boundary, h, q)) && !Run(boundary, h, q).1;
    if p.state == 1 {
      assert Step(boundary, h, p.(buffer := y)) == Again(q);
    } else {
      assert p.(buffer := y) == q;
    }
  }

  lemma CutIntoThree(a: string, x: string, y: string, z: string)
    ensures Concat([a + x, y, z]) == a + (x + y + z)
  {
    assert [a + x, y, z][1..] == [y, z] && [y, z][1..] == [z] && [z][1..] == [];
    assert Concat([z]) == z && Concat([y, z]) == y + z;
    assert (a + x) + (y + z) == a + (x + y + z);
  }

  /** Behind the opening line. */
  function Opened<S>(env: S, rest: string): Parser<S> {
    Parser(1, false, NO_DATA, rest, env)
  }

  /** `a` ends with the first opening line. */
  ghost predicate EndsOpening(boundary: string, a: string) {
    Contains(a, Opening(boundary)) && Find(a, Opening(boundary)) + |Opening(boundary)| == |a|
  }

  lemma AfterOpening<S(!new)>(boundary: string, h: Handlers<S>, env: S, a: string, b: string)
    requires EndsOpening(boundary, a)
    ensures Parse(boundary, h, Fresh(env), a + b) == Run(boundary, h, Opened(env, b))
    ensures Fitting(boundary, h, Fed(Fresh(env), a + b)) <==> Fitting(boundary, h, Opened(env, b))
  {
    var start := Fresh(env);
    FindIsFirst(a, Opening(boundary));
    assert Step(boundary, h, start.(buffer := a)) == Again(Opened(env, []));
    PreambleResume(boundary, h, start, a, b);
    assert [] + b == b && [] + (a + b) == a + b;
    assert Fed(start, a + b) == start.(buffer := a + b) && Fed(Opened(env, []), b) == Opened(env, b);
  }

  lemma OpeningFound(boundary: string, body: string) returns (a: string, b: string)
    requires Contains(body, Opening(boundary))
    ensures body == a + b && EndsOpening(boundary, a)
  {
    var opening := Opening(boundary);
    FindFits(body, opening);
    var k := Find(body, opening) + |opening|;
    FindInPrefix(body, opening, k);
    a, b := body[..k], body[k..];
  }

  lemma RefusedSecond<S>(boundary: string, h: Handlers<S>, p: Parser<S>, x: string, y: string, z: string)
    requires p.state <= 4 && Parse(boundary, h, p, x).1 && !Parse(boundary, h, Parse(boundary, h, p, x).0, y).1
    ensures !ParseAll(boundary, h, p, [x, y, z]).1
  {
    assert [x, y, z][1..] == [y, z] && [y, z][1..] == [z];
  }

  /** A body that is accepted whole and whose headers do not fit is refused in some pieces. */
  lemma SomeCuttingIsRefused<S(!new)>(boundary: string, h: Handlers<S>, env: S, body: string)
    returns (pieces: seq<string>)
    requires Parse(boundary, h, Fresh(env), body).1 && !Fitting(boundary, h, Fed(Fresh(env), body))
    ensures Concat(pieces) == body && OpeningWhole(Opening(boundary), pieces)
    ensures !ParseAll(boundary, h, Fresh(env), pieces).1
  {
    if !Contains(body, Opening(boundary)) {
      NothingFound(boundary, h, env, body);
    }
    var a, b := OpeningFound(boundary, body);
    AfterOpening(boundary, h, env, a, b);
    var x, y, z := CutBeforeLongLine(boundary, h, Opened(env, b));
    assert Opened(env, b).(buffer := x) == Opened(env, x);
    AfterOpening(boundary, h, env, a, x);
    LongLineIsRefused(boundary, h, Parse(boundary, h, Fresh(env), a + x).0, y);
    RefusedSecond(boundary, h, Fresh(env), a + x, y, z);
    CutIntoThree(a, x, y, z);
    FindInLonger(a, Opening(boundary), x);
    pieces := [a + x, y, z];
  }

  /** The exact condition: every cutting gets the answer that the whole gets exactly when the whole is refused
      or its header lines fit. */
  lemma LimitDecides<S(!new)>(boundary: string, h: Handlers<S>, env: S, body: string)
    requires Appending(h) && Quiet(boundary, h, Fed(Fresh(env), body))
    ensures (forall pieces: seq<string> :: Concat(pieces) == body && OpeningWhole(Opening(boundary), pieces) ==>
               ParseAll(boundary, h, Fresh(env), pieces).1 == Parse(boundary, h, Fresh(env), body).1)
            <==> !Parse(boundary, h, Fresh(env), body).1 || Fitting(boundary, h, Fed(Fresh(env), body))
  {
    if !Parse(boundary, h, Fresh(env), body).1 || Fitting(boundary, h, Fed(Fresh(env), body)) {
      forall pieces: seq<string> | Concat(pieces) == body && OpeningWhole(Opening(boundary), pieces)
        ensures ParseAll(boundary, h, Fresh(env), pieces).1 == Parse(boundary, h, Fresh(env), body).1
      {
        CuttingDoesNotMatter(boundary, h, env, pieces);
      }
    } else {
      var pieces := SomeCuttingIsRefused(boundary, h, env, body);
    }
  }

  lemma FirstLineFound(line: string)
    requires '\r' !in line
    ensures Find(line + CRLF, CRLF) == |line| && Find(line + ['\r'], CRLF) == |line| + 1
  {
    AbsentAfterPrefix(line, [], CRLF);
    assert line + [] == line && CRLF + [] == CRLF;
    FirstAfter(line, CRLF, []);
    AbsentAfterPrefix(line, ['\r'], CRLF);
  }

  /** An input: a first header line of exactly the maximal length is accepted whole, and refused when it is cut
      between the two characters of its line end. */
  lemma LimitIsSharp<S(!new)>(boundary: string, h: Handlers<S>, env: S, line: string)
    requires |line| == HEADER_MAX_LENGTH && '\r' !in line && h.line(NO_DATA, line).1
    ensures Parse(boundary, h, Fresh(env), Opening(boundary) + (line + CRLF)).1
    ensures !ParseAll(boundary, h, Fresh(env), [Opening(boundary) + (line + ['\r']), ['\n']]).1
  {
    FirstLineFound(line);
    OpeningIsFirst(boundary);
    AfterOpening(boundary, h, env, Opening(boundary), line + CRLF);
    AfterOpening(boundary, h, env, Opening(boundary), line + ['\r']);
    LongestLineRead(boundary, h, env, line);
    LongLineIsRefused(boundary, h, Opened(env, []), line + ['\r']);
    assert [] + (line + ['\r']) == line + ['\r'];
  }

  lemma OpeningIsFirst(boundary: string)
    ensures EndsOpening(boundary, Opening(boundary))
  {
  }

  lemma LongestLineRead<S(!new)>(boundary: string, h: Handlers<S>, env: S, line: string)
    requires |line| == HEADER_MAX_LENGTH && Find(line + CRLF, CRLF) == |line| && h.line(NO_DATA, line).1
    ensures Run(boundary, h, Opened(env, line + CRLF)).1
  {
    var p := Opened(env, line + CRLF).(state := 2);
    FirstLineRead(h, p, |line|);
    assert p.buffer[..|line|] == line && p.buffer[|line| + 2..] == [];
    assert !Refuses(HeaderLines(h, AfterLine(h, p, |line|)));
    assert ReadHeaders(h, p).Stop?;
    assert Step(boundary, h, Opened(env, line + CRLF)) == Again(p);
  }
}
