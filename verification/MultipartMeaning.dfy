/**
  What a whole body means to the client, for any callbacks: every text is a preamble and sections of lines and content,
  and the answer follows from these.
 */
module MultipartMeaning {
  import opened MultipartSpec
  import opened Search
  import opened Sequences
  import opened Wire

  /** What follows a boundary line: complete header lines and an incomplete one; or an empty line, and content, without
      or with a delimiter after it. */
  datatype Section =
    | Headers(lines: seq<string>, rest: string)
    | Open(lines: seq<string>, text: string)
    | Part(lines: seq<string>, content: string, after: Ending)

  /** What follows a delimiter: neither a line end nor dashes, dashes and an epilogue, or a line end and a section. */
  datatype Ending =
    | Undecided(text: string)
    | Close(epilogue: string)
    | Next(section: Section)

  datatype Body =
    | Unopened(text: string)
    | Opened(preamble: string, section: Section)

  // ---------------------------------------------------------------- their texts

  function LinesText(lines: seq<string>): string {
    if lines == [] then [] else lines[0] + (CRLF + LinesText(lines[1..]))
  }

  function SectionText(boundary: string, s: Section): string {
    match s
    case Headers(lines, rest) => LinesText(lines) + rest
    case Open(lines, text) => LinesText(lines) + (CRLF + text)
    case Part(lines, content, after) =>
      LinesText(lines) + (CRLF + (content + (Delimiter(boundary) + EndingText(boundary, after))))
  }

  function EndingText(boundary: string, e: Ending): string {
    match e
    case Undecided(text) => text
    case Close(epilogue) => DASH + epilogue
    case Next(section) => CRLF + SectionText(boundary, section)
  }

  function BodyText(boundary: string, b: Body): string {
    match b
    case Unopened(text) => text
    case Opened(preamble, section) => preamble + (Opening(boundary) + SectionText(boundary, section))
  }

  ghost predicate HasNo(t: string, s: string) {
    forall i: nat :: !OccursAt(t, s, i)
  }

  /** In front of `s`, there is no earlier occurrence of it. */
  ghost predicate EndsBefore(t: string, s: string) {
    forall i: nat :: i < |t| ==> !OccursAt(t + s, s, i)
  }

  ghost predicate AreLines(lines: seq<string>) {
    forall i :: 0 <= i < |lines| ==> lines[i] != [] && HasNo(lines[i], CRLF)
  }

  ghost predicate IsSection(boundary: string, s: Section) {
    AreLines(s.lines)
    && match s
       case Headers(_, rest) => HasNo(rest, CRLF)
       case Open(_, text) => HasNo(text, Delimiter(boundary))
       case Part(_, content, after) => EndsBefore(content, Delimiter(boundary)) && IsEnding(boundary, after)
  }

  ghost predicate IsEnding(boundary: string, e: Ending) {
    match e
    case Undecided(text) => !(CRLF <= text) && !(DASH <= text)
    case Close(_) => true
    case Next(section) => IsSection(boundary, section)
  }

  ghost predicate IsBody(boundary: string, b: Body) {
    match b
    case Unopened(text) => HasNo(text, Opening(boundary))
    case Opened(preamble, section) => EndsBefore(preamble, Opening(boundary)) && IsSection(boundary, section)
  }

  // ---------------------------------------------------------------- their meaning

  /** What the client sees: its own state, whether the body is valid, and whether the parser went on. */
  datatype Seen<S> = Seen(env: S, isValid: bool, ok: bool)

  /** The lines in turn, up to the first that is refused. */
  function TakeLines<S>(h: Handlers<S>, file: FormData, lines: seq<string>): (FormData, bool)
    decreases |lines|
  {
    if lines == [] then (file, true)
    else
      var (next, ok) := h.line(file, lines[0]);
      if ok then TakeLines(h, next, lines[1..]) else (next, false)
  }

  /** The length of the text before the first line end of a section. */
  function FirstLength(s: Section): nat {
    if s.lines != [] then |s.lines[0]| else if s.Headers? then |s.rest| else 0
  }

  /** Content without a delimiter after it is passed on but for as many characters as the delimiter has. */
  function OpenMeans<S>(boundary: string, h: Handlers<S>, env: S, text: string): Seen<S> {
    var kept := |Delimiter(boundary)|;
    if |text| <= kept then Seen(env, false, true)
    else
      var (next, ok) := h.content(env, text[..|text| - kept]);
      Seen(next, false, ok)
  }

  /** A first line within the limit, lines that are taken, a part that is taken, and its content. */
  function SectionMeans<S>(boundary: string, h: Handlers<S>, env: S, s: Section): Seen<S> {
    var (file, taken) := TakeLines(h, NO_DATA, s.lines);
    if FirstLength(s) > HEADER_MAX_LENGTH || !taken then Seen(env, false, false)
    else if s.Headers? then Seen(env, false, true)
    else
      var (begun, partTaken) := h.part(env, file);
      if !partTaken then Seen(begun, false, false)
      else if s.Open? then OpenMeans(boundary, h, begun, s.text)
      else
        var (next, contentTaken) := h.content(begun, s.content);
        if !contentTaken then Seen(next, false, false) else EndingMeans(boundary, h, next, s.after)
  }

  function EndingMeans<S>(boundary: string, h: Handlers<S>, env: S, e: Ending): Seen<S> {
    match e
    case Undecided(_) => Seen(env, false, true)
    case Close(_) => Seen(env, true, true)
    case Next(section) => SectionMeans(boundary, h, env, section)
  }

  function Means<S>(boundary: string, h: Handlers<S>, env: S, b: Body): Seen<S> {
    match b
    case Unopened(_) => Seen(env, false, true)
    case Opened(_, section) => SectionMeans(boundary, h, env, section)
  }

  function SeenBy<S>(r: (Parser<S>, bool)): Seen<S> {
    Seen(r.0.env, r.0.isValid, r.1)
  }

  function SeenAfter<S>(boundary: string, h: Handlers<S>, o: Outcome<S>): Seen<S>
    requires o.p.state <= 4
  {
    match o
    case Again(q) => SeenBy(Run(boundary, h, q))
    case Stop(q, ok) => SeenBy((q, ok))
  }

  lemma RunIsStep<S>(boundary: string, h: Handlers<S>, p: Parser<S>)
    requires p.state <= 4 && p.buffer != []
    ensures SeenBy(Run(boundary, h, p)) == SeenAfter(boundary, h, Step(boundary, h, p))
  {
  }

  lemma NoneFound(t: string, s: string)
    requires s != [] && HasNo(t, s)
    ensures Find(t, s) == |t|
  {
    FindIsFirst(t, s);
  }

  lemma FoundAtEnd(t: string, s: string, rest: string)
    requires s != [] && EndsBefore(t, s)
    ensures Find(t + (s + rest), s) == |t| && (t + (s + rest))[..|t|] == t && (t + (s + rest))[|t| + |s|..] == rest
  {
    assert (t + s)[|t|..] == s;
    FindIs(t + s, s, |t|);
    FindInLonger(t + s, s, rest);
    Associate(t, s, rest);
  }

  lemma LineEndsBefore(line: string)
    requires HasNo(line, CRLF)
    ensures EndsBefore(line, CRLF)
  {
    forall i: nat | i < |line|
      ensures !OccursAt(line + CRLF, CRLF, i)
    {
      assert !OccursAt(line, CRLF, i);
      if i + 1 < |line| {
        assert (line + CRLF)[i..][..2] == line[i..][..2];
      } else {
        assert (line + CRLF)[i..][1] == '\r';
      }
    }
  }

  // ---------------------------------------------------------------- headers

  lemma FirstLine<S>(h: Handlers<S>, p: Parser<S>, line: string, rest: string)
    requires p.buffer == line + (CRLF + rest) && line != [] && HasNo(line, CRLF)
    ensures Find(p.buffer, CRLF) == |line|
    ensures var (file, ok) := h.line(p.file, line);
            HeaderLines(h, p)
            == if ok then HeaderLines(h, p.(file := file, buffer := rest))
               else Stop(p.(file := file, isValid := false), false)
  {
    LineEndsBefore(line);
    FoundAtEnd(line, CRLF, rest);
  }

  lemma {:induction false} LinesTaken<S>(h: Handlers<S>, p: Parser<S>, lines: seq<string>, more: string)
    requires AreLines(lines) && p.buffer == LinesText(lines) + more
    ensures var (file, ok) := TakeLines(h, p.file, lines);
            ok ==> HeaderLines(h, p) == HeaderLines(h, p.(file := file, buffer := more))
    ensures !TakeLines(h, p.file, lines).1 ==>
              HeaderLines(h, p).Stop? && !HeaderLines(h, p).ok && HeaderLines(h, p).p.env == p.env
              && !HeaderLines(h, p).p.isValid
    decreases |lines|
  {
    if lines == [] {
      assert [] + more == more;
    } else {
      var rest := LinesText(lines[1..]) + more;
      Associate(lines[0], CRLF + LinesText(lines[1..]), more);
      Associate(CRLF, LinesText(lines[1..]), more);
      FirstLine(h, p, lines[0], rest);
      LinesTaken(h, p.(file := h.line(p.file, lines[0]).0, buffer := rest), lines[1..], more);
    }
  }

  /** The part of a section behind its lines. */
  function Behind(boundary: string, s: Section): string {
    match s
    case Headers(_, rest) => rest
    case Open(_, text) => CRLF + text
    case Part(_, content, after) => CRLF + (content + (Delimiter(boundary) + EndingText(boundary, after)))
  }

  lemma FirstLengthIs(boundary: string, s: Section)
    requires IsSection(boundary, s)
    ensures Find(SectionText(boundary, s), CRLF) == FirstLength(s)
  {
    if s.lines != [] {
      var rest := LinesText(s.lines[1..]) + Behind(boundary, s);
      Associate(s.lines[0], CRLF + LinesText(s.lines[1..]), Behind(boundary, s));
      Associate(CRLF, LinesText(s.lines[1..]), Behind(boundary, s));
      LineEndsBefore(s.lines[0]);
      FoundAtEnd(s.lines[0], CRLF, rest);
    } else {
      assert [] + Behind(boundary, s) == Behind(boundary, s);
      if s.Headers? {
        NoneFound(s.rest, CRLF);
      }
    }
  }

  lemma EmptyLine<S>(h: Handlers<S>, p: Parser<S>, rest: string)
    requires p.buffer == CRLF + rest
    ensures var (env, ok) := h.part(p.env, p.file);
            HeaderLines(h, p)
            == if ok then Again(p.(env := env, buffer := rest, state := 3))
               else Stop(p.(env := env, isValid := false), false)
  {
    assert p.buffer[2..] == rest;
  }

  /** The lines of a section, and what comes after them. */
  lemma HeadersMean<S>(boundary: string, h: Handlers<S>, p: Parser<S>, s: Section, o: Outcome<S>)
    requires IsSection(boundary, s) && p.buffer == SectionText(boundary, s) && p.file == NO_DATA && !p.isValid
    requires o == ReadHeaders(h, p)
    ensures var (file, taken) := TakeLines(h, NO_DATA, s.lines);
            if FirstLength(s) > HEADER_MAX_LENGTH || !taken then
              o.Stop? && SeenBy((o.p, o.ok)) == Seen(p.env, false, false)
            else if s.Headers? then o.Stop? && SeenBy((o.p, o.ok)) == Seen(p.env, false, true)
            else o == HeaderLines(h, p.(file := file, buffer := Behind(boundary, s)))
  {
    FirstLengthIs(boundary, s);
    LinesTaken(h, p, s.lines, Behind(boundary, s));
    if s.Headers? {
      NoneFound(s.rest, CRLF);
    }
  }

  // ---------------------------------------------------------------- content

  lemma OpenIsMeant<S>(boundary: string, h: Handlers<S>, p: Parser<S>, text: string)
    requires p.state == 3 && !p.isValid && p.buffer == text && HasNo(text, Delimiter(boundary))
    ensures SeenBy(Run(boundary, h, p)) == OpenMeans(boundary, h, p.env, text)
  {
    NoneFound(text, Delimiter(boundary));
  }

  lemma ContentIsMeant<S>(boundary: string, h: Handlers<S>, p: Parser<S>, content: string, rest: string)
    requires p.state == 3 && !p.isValid && EndsBefore(content, Delimiter(boundary))
    requires p.buffer == content + (Delimiter(boundary) + rest)
    ensures var (env, ok) := h.content(p.env, content);
            SeenBy(Run(boundary, h, p))
            == if ok then SeenBy(Run(boundary, h, p.(env := env, buffer := rest, state := 4)))
               else Seen(env, false, false)
  {
    FoundAtEnd(content, Delimiter(boundary), rest);
    RunIsStep(boundary, h, p);
  }

  // ---------------------------------------------------------------- whole bodies

  lemma {:induction false} SectionIsMeant<S>(boundary: string, h: Handlers<S>, p: Parser<S>, s: Section)
    requires p.state == 1 && !p.isValid && IsSection(boundary, s) && p.buffer == SectionText(boundary, s)
    ensures SeenBy(Run(boundary, h, p)) == SectionMeans(boundary, h, p.env, s)
    decreases s
  {
    var p2 := p.(file := NO_DATA, state := 2);
    var o := ReadHeaders(h, p2);
    HeadersMean(boundary, h, p2, s, o);
    if p.buffer == [] {
      NothingIsMeant(boundary, s);
    } else {
      RunIsStep(boundary, h, p);
      RunIsStep(boundary, h, p2);
      var (file, taken) := TakeLines(h, NO_DATA, s.lines);
      if FirstLength(s) <= HEADER_MAX_LENGTH && taken && !s.Headers? {
        BehindIsMeant(boundary, h, p2.(file := file, buffer := Behind(boundary, s)), s);
      }
    }
  }

  lemma NothingIsMeant(boundary: string, s: Section)
    requires SectionText(boundary, s) == []
    ensures s == Headers([], [])
  {
  }

  lemma {:induction false} BehindIsMeant<S>(boundary: string, h: Handlers<S>, p: Parser<S>, s: Section)
    requires p.state == 2 && !p.isValid && IsSection(boundary, s) && !s.Headers? && p.buffer == Behind(boundary, s)
    ensures var (env, ok) := h.part(p.env, p.file);
            SeenAfter(boundary, h, HeaderLines(h, p))
            == if !ok then Seen(env, false, false)
               else if s.Open? then OpenMeans(boundary, h, env, s.text)
               else
                 var (next, taken) := h.content(env, s.content);
                 if !taken then Seen(next, false, false) else EndingMeans(boundary, h, next, s.after)
    decreases s, 0
  {
    var (env, ok) := h.part(p.env, p.file);
    var rest := Behind(boundary, s)[2..];
    EmptyLine(h, p, rest);
    var q := p.(env := env, buffer := rest, state := 3);
    if s.Open? {
      OpenIsMeant(boundary, h, q, s.text);
    } else {
      var ending := EndingText(boundary, s.after);
      assert rest == s.content + (Delimiter(boundary) + ending);
      ContentIsMeant(boundary, h, q, s.content, ending);
      EndingIsMeant(boundary, h, q.(env := h.content(env, s.content).0, buffer := ending, state := 4), s.after);
    }
  }

  lemma {:induction false} EndingIsMeant<S>(boundary: string, h: Handlers<S>, p: Parser<S>, e: Ending)
    requires p.state == 4 && !p.isValid && IsEnding(boundary, e) && p.buffer == EndingText(boundary, e)
    ensures SeenBy(Run(boundary, h, p)) == EndingMeans(boundary, h, p.env, e)
    decreases e
  {
    match e
    case Undecided(_) =>
    case Close(epilogue) =>
      assert DASH <= p.buffer && p.buffer[0] == '-';
      RunIsStep(boundary, h, p);
    case Next(section) =>
      assert CRLF <= p.buffer && p.buffer[2..] == SectionText(boundary, section);
      RunIsStep(boundary, h, p);
      SectionIsMeant(boundary, h, p.(buffer := SectionText(boundary, section), state := 1), section);
  }

  /** What the client sees of a body is what the body means, for any callbacks. */
  lemma BodyIsMeant<S>(boundary: string, h: Handlers<S>, env: S, b: Body)
    requires IsBody(boundary, b)
    ensures SeenBy(Parse(boundary, h, Fresh(env), BodyText(boundary, b))) == Means(boundary, h, env, b)
  {
    var text := BodyText(boundary, b);
    var p: Parser<S> := Fresh(env).(buffer := text);
    assert Fresh(env).buffer + text == text;
    match b
    case Unopened(_) => NoneFound(text, Opening(boundary));
    case Opened(preamble, section) =>
      OpeningIsFound(boundary, p, preamble, SectionText(boundary, section));
      RunIsStep(boundary, h, p);
      SectionIsMeant(boundary, h, p.(buffer := SectionText(boundary, section), state := 1), section);
  }

  lemma OpeningIsFound<S>(boundary: string, p: Parser<S>, preamble: string, rest: string)
    requires EndsBefore(preamble, Opening(boundary)) && p.buffer == preamble + (Opening(boundary) + rest)
    ensures SkipPreamble(Opening(boundary), p) == Again(p.(buffer := rest, state := 1))
  {
    FoundAtEnd(preamble, Opening(boundary), rest);
    assert p.buffer[|preamble|..] == Opening(boundary) + rest;
  }

  // ---------------------------------------------------------------- every text

  /** A text with an occurrence is what comes before the first one, and what comes after it. */
  lemma CutAtFirst(t: string, s: string) returns (before: string, after: string)
    requires s != [] && Contains(t, s)
    ensures t == before + (s + after) && EndsBefore(before, s)
  {
    var k := Find(t, s);
    FindIsFirst(t, s);
    FindFits(t, s);
    before, after := t[..k], t[k + |s|..];
    assert t[k..][..|s|] == s && t == before + (s + after);
    forall i: nat | i < k
      ensures !OccursAt(before + s, s, i)
    {
      if OccursAt(before + s, s, i) {
        Associate(before, s, after);
        assert t[i..][..|s|] == (before + s)[i..][..|s|];
        assert OccursAt(t, s, i);
      }
    }
  }

  lemma NoneContained(t: string, s: string)
    requires s != [] && !Contains(t, s)
    ensures HasNo(t, s)
  {
    FindIsFirst(t, s);
  }

  lemma NothingInFront(line: string)
    requires EndsBefore(line, CRLF)
    ensures HasNo(line, CRLF)
  {
    forall i: nat
      ensures !OccursAt(line, CRLF, i)
    {
      if OccursAt(line, CRLF, i) {
        assert (line + CRLF)[i..][..2] == line[i..][..2];
        assert OccursAt(line + CRLF, CRLF, i);
      }
    }
  }

  /** The complete lines of a text up to the empty line, and what is left. */
  lemma {:induction false} EveryHeader(t: string) returns (lines: seq<string>, empty: bool, rest: string)
    ensures AreLines(lines) && t == LinesText(lines) + (if empty then CRLF + rest else rest)
    ensures !empty ==> HasNo(rest, CRLF)
    ensures |rest| <= |t|
    decreases |t|
  {
    if !Contains(t, CRLF) {
      NoneContained(t, CRLF);
      lines, empty, rest := [], false, t;
    } else {
      var line, after := CutAtFirst(t, CRLF);
      if line == [] {
        lines, empty, rest := [], true, after;
      } else {
        var more: seq<string>;
        more, empty, rest := EveryHeader(after);
        NothingInFront(line);
        lines := [line] + more;
        LineInFront(line, more, if empty then CRLF + rest else rest, after, t);
      }
    }
  }

  lemma LineInFront(line: string, more: seq<string>, rest: string, after: string, t: string)
    requires after == LinesText(more) + rest && t == line + (CRLF + after)
    ensures t == LinesText([line] + more) + rest
  {
    assert ([line] + more)[1..] == more;
    Associate(CRLF, LinesText(more), rest);
    Associate(line, CRLF + LinesText(more), rest);
  }

  lemma {:induction false} EverySection(boundary: string, t: string) returns (s: Section)
    ensures IsSection(boundary, s) && SectionText(boundary, s) == t
    decreases |t|, 0
  {
    var lines, empty, rest := EveryHeader(t);
    if !empty {
      s := Headers(lines, rest);
    } else if !Contains(rest, Delimiter(boundary)) {
      NoneContained(rest, Delimiter(boundary));
      s := Open(lines, rest);
    } else {
      var content, after := CutAtFirst(rest, Delimiter(boundary));
      var e := EveryEnding(boundary, after);
      s := Part(lines, content, e);
    }
  }

  lemma {:induction false} EveryEnding(boundary: string, t: string) returns (e: Ending)
    ensures IsEnding(boundary, e) && EndingText(boundary, e) == t
    decreases |t|, 1
  {
    if CRLF <= t {
      assert t == CRLF + t[2..];
      var s := EverySection(boundary, t[2..]);
      e := Next(s);
    } else if DASH <= t {
      assert t == DASH + t[2..];
      e := Close(t[2..]);
    } else {
      e := Undecided(t);
    }
  }

  /** Every text is a body, so that `BodyIsMeant` speaks of all of them. */
  lemma EveryBody(boundary: string, t: string) returns (b: Body)
    ensures IsBody(boundary, b) && BodyText(boundary, b) == t
  {
    if !Contains(t, Opening(boundary)) {
      NoneContained(t, Opening(boundary));
      b := Unopened(t);
    } else {
      var preamble, rest := CutAtFirst(t, Opening(boundary));
      var s := EverySection(boundary, rest);
      b := Opened(preamble, s);
    }
  }
}
