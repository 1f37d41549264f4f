/**
  Writing form data as a multipart body, and reading it back.
 */
module MultipartRoundTrip {
  import opened HttpText
  import opened Sequences
  import opened Search
  import opened Splitting
  import opened MultipartSpec
  import opened Wire
  import opened MultipartHeaders

  datatype Item = Item(name: string, content: string, filename: string, contentType: string)

  // ---------------------------------------------------------------- writing

  function DispositionLine(item: Item): string {
    DISPOSITION + NameText(item.name, item.filename)
  }

  function TypeLine(item: Item): string {
    CONTENT_TYPE + item.contentType
  }

  function TypeText(item: Item): string {
    if item.contentType == [] then CRLF else TypeLine(item) + (CRLF + CRLF)
  }

  /** The headers of a part up to and including the empty line. */
  function HeaderText(item: Item): string {
    DispositionLine(item) + (CRLF + TypeText(item))
  }

  function ItemText(item: Item, boundary: string): string {
    Opening(boundary) + HeaderText(item) + item.content + CRLF
  }

  function ClosingLine(boundary: string): string {
    DASH + boundary + DASH + CRLF
  }

  function Serialized(items: seq<Item>, boundary: string): string {
    if items == [] then ClosingLine(boundary) else ItemText(items[0], boundary) + Serialized(items[1..], boundary)
  }

  method SerializeDisposition(item: Item) returns (line: string)
    ensures line == DispositionLine(item)
  {
    line := "Content-Disposition: form-data; name=\"" + item.name + "\"";
    assert line == DISPOSITION + Quoted("name", item.name);
    if item.filename != [] {
      line := line + "; filename=\"" + item.filename + "\"";
      assert line == DISPOSITION + (Quoted("name", item.name) + "; " + Quoted("filename", item.filename));
    }
  }

  method SerializeItemBegin(item: Item, boundary: string) returns (body: string)
    ensures body == Opening(boundary) + HeaderText(item)
  {
    var line := SerializeDisposition(item);
    body := "--" + boundary + "\r\n";
    var types := "\r\n";
    if item.contentType != [] {
      types := "Content-Type: " + item.contentType + "\r\n" + types;
      Associate(TypeLine(item), CRLF, CRLF);
    }
    body := body + (line + ("\r\n" + types));
  }

  /** The text of the items; without `finish` all of it but the closing line. */
  method Serialize(items: seq<Item>, boundary: string, finish: bool) returns (body: string)
    ensures (if finish then body else body + ClosingLine(boundary)) == Serialized(items, boundary)
  {
    body := [];
    assert items[0..] == items;
    for i := 0 to |items|
      invariant body + Serialized(items[i..], boundary) == Serialized(items, boundary)
    {
      var begin := SerializeItemBegin(items[i], boundary);
      assert items[i..][1..] == items[i + 1..];
      Associate(body, ItemText(items[i], boundary), Serialized(items[i + 1..], boundary));
      body := body + (begin + items[i].content + CRLF);
    }
    if finish {
      body := body + ("--" + boundary + "--" + "\r\n");
    }
  }

  // ---------------------------------------------------------------- reading with a collecting client

  function AddPart(parts: seq<Item>, file: FormData): (seq<Item>, bool) {
    (parts + [Item(file.name, [], file.filename, file.contentType)], true)
  }

  function AddContent(parts: seq<Item>, data: string): (seq<Item>, bool) {
    if parts == [] then (parts, true)
    else
      var last := |parts| - 1;
      (parts[..last] + [parts[last].(content := parts[last].content + data)], true)
  }

  function Collector(): Handlers<seq<Item>> {
    Handlers(HeaderLine, AddPart, AddContent)
  }

  lemma ContentOfLast(parts: seq<Item>, item: Item, data: string)
    ensures AddContent(parts + [item], data) == (parts + [item.(content := item.content + data)], true)
  {
    assert (parts + [item])[..|parts|] == parts;
  }

  lemma CollectorAppends()
    ensures Appending(Collector())
  {
    var h := Collector();
    forall s: seq<Item>, a: string, b: string
      ensures h.content(h.content(s, a).0, b).0 == h.content(s, a + b).0
    {
      if s != [] {
        var init, item := s[..|s| - 1], s[|s| - 1];
        assert s == init + [item];
        ContentOfLast(init, item, a);
        ContentOfLast(init, item, a + b);
        ContentOfLast(init, item.(content := item.content + a), b);
        Associate(item.content, a, b);
      }
    }
  }

  /** What may be written so that it reads back. */
  predicate Writable(item: Item, boundary: string) {
    PlainName(item.name) && PlainName(item.filename)
    && Trimmed(item.contentType) && !Contains(item.contentType, CRLF)
    && !Contains(item.content, Delimiter(boundary))
    && |DispositionLine(item)| <= HEADER_MAX_LENGTH
  }

  /** Header lines that fit however they are cut. */
  predicate Short(item: Item) {
    |DispositionLine(item)| < HEADER_MAX_LENGTH && |TypeLine(item)| < HEADER_MAX_LENGTH
  }

  lemma LineRead<S>(h: Handlers<S>, p: Parser<S>, line: string, rest: string)
    requires p.buffer == line + (CRLF + rest) && line != [] && !Contains(line, CRLF) && h.line(p.file, line).1
    ensures Find(p.buffer, CRLF) == |line|
    ensures HeaderLines(h, p) == HeaderLines(h, p.(file := h.line(p.file, line).0, buffer := rest))
    ensures |line| < HEADER_MAX_LENGTH && LinesFit(rest) ==> LinesFit(p.buffer)
  {
    FirstAfter(line, CRLF, rest);
    assert p.buffer[..|line|] == line && p.buffer[|line| + 2..] == rest;
  }

  lemma EmptyLineRead<S>(h: Handlers<S>, p: Parser<S>, rest: string)
    requires p.buffer == CRLF + rest && h.part(p.env, p.file).1
    ensures HeaderLines(h, p) == Again(p.(env := h.part(p.env, p.file).0, buffer := rest, state := 3))
    ensures LinesFit(p.buffer)
  {
    assert CRLF <= p.buffer && p.buffer[2..] == rest;
  }

  lemma DispositionLineIsPlain(item: Item, boundary: string)
    requires Writable(item, boundary)
    ensures !Contains(DispositionLine(item), CRLF) && !Contains(TypeLine(item), CRLF)
  {
    NameTextIsPlain(item.name, item.filename);
    assert '\r' !in DISPOSITION;
    AbsentAfterPrefix(DispositionLine(item), [], CRLF);
    assert DispositionLine(item) + [] == DispositionLine(item);
    AbsentAfterPrefix(CONTENT_TYPE, item.contentType, CRLF);
  }

  lemma TypeLineRead(item: Item, boundary: string, p: Parser<seq<Item>>, rest: string)
    requires Writable(item, boundary) && item.contentType != []
    requires p.buffer == TypeLine(item) + (CRLF + rest)
    ensures HeaderLines(Collector(), p)
            == HeaderLines(Collector(), p.(file := p.file.(contentType := item.contentType), buffer := rest))
    ensures Short(item) && LinesFit(rest) ==> LinesFit(p.buffer)
  {
    DispositionLineIsPlain(item, boundary);
    ContentTypeReadsBack(p.file, item.contentType);
    LineRead(Collector(), p, TypeLine(item), rest);
  }

  lemma TypeAndEmptyLineRead(item: Item, boundary: string, p: Parser<seq<Item>>, rest: string)
    requires Writable(item, boundary) && p.buffer == TypeText(item) + rest && p.file.contentType == []
    ensures var file := p.file.(contentType := item.contentType);
      HeaderLines(Collector(), p) == Again(p.(file := file, env := AddPart(p.env, file).0, buffer := rest, state := 3))
    ensures Short(item) ==> LinesFit(p.buffer)
  {
    var q := p.(file := p.file.(contentType := item.contentType), buffer := CRLF + rest);
    EmptyLineRead(Collector(), q, rest);
    if item.contentType == [] {
      assert p == q;
    } else {
      RegroupThree(TypeLine(item), CRLF, CRLF, rest);
      TypeLineRead(item, boundary, p, CRLF + rest);
    }
  }

  function Described(item: Item): FormData {
    MultipartSpec.FormData(item.name, item.filename, item.contentType)
  }

  lemma RegroupThree(a: string, b: string, c: string, d: string)
    ensures (a + (b + c)) + d == a + (b + (c + d))
  {
  }

  /** The written headers describe the part. */
  lemma HeadersRead(item: Item, boundary: string, p: Parser<seq<Item>>, rest: string)
    requires Writable(item, boundary) && p.buffer == HeaderText(item) + rest && p.file == NO_DATA
    ensures ReadHeaders(Collector(), p)
            == Again(p.(file := Described(item), env := p.env + [item.(content := [])], buffer := rest, state := 3))
    ensures Short(item) ==> LinesFit(p.buffer)
  {
    var line, more := DispositionLine(item), TypeText(item) + rest;
    RegroupThree(line, CRLF, TypeText(item), rest);
    DispositionLineIsPlain(item, boundary);
    DispositionReadsBack(NO_DATA, item.name, item.filename);
    LineRead(Collector(), p, line, more);
    TypeAndEmptyLineRead(item, boundary,
                         p.(file := NO_DATA.(name := item.name, filename := item.filename), buffer := more), rest);
  }

  // ---------------------------------------------------------------- whole bodies

  /** A body from the headers of the first item on, and what follows a delimiter. */
  function Entry(items: seq<Item>, boundary: string): string
    requires items != []
    decreases |items|, 0
  {
    HeaderText(items[0]) + (items[0].content + (Delimiter(boundary) + Following(items[1..], boundary)))
  }

  function Following(items: seq<Item>, boundary: string): string
    decreases |items|, 1
  {
    if items == [] then DASH + CRLF else CRLF + Entry(items, boundary)
  }

  lemma RegroupFive(a: string, b: string, c: string, d: string, e: string)
    ensures (a + b + c + d) + e == a + (b + (c + (d + e)))
  {
  }

  lemma DelimiterFromOpening(boundary: string, rest: string)
    ensures CRLF + (Opening(boundary) + rest) == Delimiter(boundary) + (CRLF + rest)
  {
  }

  lemma {:induction false} SerializedFromDelimiter(items: seq<Item>, boundary: string)
    ensures CRLF + Serialized(items, boundary) == Delimiter(boundary) + Following(items, boundary)
    ensures items != [] ==> Serialized(items, boundary) == Opening(boundary) + Entry(items, boundary)
  {
    if items != [] {
      var item := items[0];
      SerializedFromDelimiter(items[1..], boundary);
      var tail := Serialized(items[1..], boundary);
      RegroupFive(Opening(boundary), HeaderText(item), item.content, CRLF, tail);
      DelimiterFromOpening(boundary, Entry(items, boundary));
    } else {
      assert CRLF + (DASH + boundary + DASH + CRLF) == Delimiter(boundary) + (DASH + CRLF);
    }
  }

  lemma RunStep<S>(boundary: string, h: Handlers<S>, p: Parser<S>, q: Parser<S>)
    requires 1 <= p.state <= 4 && p.buffer != [] && Step(boundary, h, p) == Again(q)
    ensures q.state <= 4 && Run(boundary, h, p) == Run(boundary, h, q)
    ensures (p.state == 2 ==> LinesFit(p.buffer)) && (p.state == 4 ==> !(DASH <= p.buffer)) ==>
              Regular(boundary, h, q) ==> Regular(boundary, h, p)
  {
  }

  lemma ContentRead(item: Item, boundary: string, p: Parser<seq<Item>>, env: seq<Item>, rest: string)
    requires Writable(item, boundary) && '\r' !in boundary
    requires p.buffer == item.content + (Delimiter(boundary) + rest) && p.env == env + [item.(content := [])]
    ensures ReadContent(Delimiter(boundary), Collector(), p)
            == Again(p.(env := env + [item], buffer := rest, state := 4))
  {
    var d := Delimiter(boundary);
    FirstAfter(item.content, d, rest);
    assert p.buffer[..|item.content|] == item.content && p.buffer[|item.content| + |d|..] == rest;
    ContentOfLast(env, item.(content := []), item.content);
    assert [] + item.content == item.content;
  }

  /** From the headers of a part to what follows its delimiter. */
  lemma PartRead(item: Item, boundary: string, p: Parser<seq<Item>>, rest: string)
    requires Writable(item, boundary) && '\r' !in boundary
    requires p.state == 1 && p.buffer == HeaderText(item) + (item.content + (Delimiter(boundary) + rest))
    ensures var q := p.(file := Described(item), env := p.env + [item], buffer := rest, state := 4);
            Run(boundary, Collector(), p) == Run(boundary, Collector(), q)
            && (Short(item) && Regular(boundary, Collector(), q) ==> Regular(boundary, Collector(), p))
  {
    var h := Collector();
    var p2 := p.(file := NO_DATA, state := 2);
    RunStep(boundary, h, p, p2);
    var p3 := p2.(file := Described(item), env := p.env + [item.(content := [])],
                  buffer := item.content + (Delimiter(boundary) + rest), state := 3);
    HeadersRead(item, boundary, p2, p3.buffer);
    RunStep(boundary, h, p2, p3);
    ContentRead(item, boundary, p3, p.env, rest);
    RunStep(boundary, h, p3, p3.(env := p.env + [item], buffer := rest, state := 4));
  }

  predicate AllWritable(items: seq<Item>, boundary: string) {
    forall i :: 0 <= i < |items| ==> Writable(items[i], boundary)
  }

  predicate AllShort(items: seq<Item>) {
    forall i :: 0 <= i < |items| ==> Short(items[i])
  }

  /** After the last delimiter the body is closed. */
  lemma CloseRead(boundary: string, p: Parser<seq<Item>>)
    requires p.state == 4 && p.buffer == DASH + CRLF
    ensures Run(boundary, Collector(), p) == (p.(buffer := [], isValid := true), true)
            && Regular(boundary, Collector(), p)
  {
    assert DASH <= p.buffer && p.buffer[2..] == CRLF && p.buffer[0] == '-';
    var closed := p.(buffer := [], isValid := true);
    assert Step(boundary, Collector(), p) == Again(closed);
    assert Run(boundary, Collector(), closed) == (closed, true);
  }

  lemma NextPart(boundary: string, p: Parser<seq<Item>>, next: Parser<seq<Item>>)
    requires p.state == 4 && p.buffer == CRLF + next.buffer && next == p.(buffer := next.buffer, state := 1)
    ensures Run(boundary, Collector(), p) == Run(boundary, Collector(), next)
    ensures Regular(boundary, Collector(), next) ==> Regular(boundary, Collector(), p)
  {
    assert p.buffer[0] == '\r' && CRLF <= p.buffer && p.buffer[2..] == next.buffer;
    RunStep(boundary, Collector(), p, next);
  }

  /** The parser reads exactly these items, and is valid at the end. */
  ghost predicate ReadsItems(boundary: string, p: Parser<seq<Item>>, items: seq<Item>)
    requires p.state <= 4
  {
    var r := Run(boundary, Collector(), p);
    r.1 && r.0.isValid && r.0.env == p.env + items && (AllShort(items) ==> Regular(boundary, Collector(), p))
  }

  lemma ItemThenMore(boundary: string, p: Parser<seq<Item>>, q: Parser<seq<Item>>, item: Item, rest: seq<Item>)
    requires p.state <= 4 && q.state <= 4 && q.env == p.env + [item] && ReadsItems(boundary, q, rest)
    requires Run(boundary, Collector(), p) == Run(boundary, Collector(), q)
    requires Short(item) && Regular(boundary, Collector(), q) ==> Regular(boundary, Collector(), p)
    ensures ReadsItems(boundary, p, [item] + rest)
  {
    Associate(p.env, [item], rest);
    if AllShort([item] + rest) {
      assert ([item] + rest)[0] == item;
      assert forall i :: 0 <= i < |rest| ==> ([item] + rest)[i + 1] == rest[i];
    }
  }

  lemma LastRead(boundary: string, q: Parser<seq<Item>>)
    requires q.state == 4 && q.buffer == DASH + CRLF
    ensures ReadsItems(boundary, q, [])
  {
    CloseRead(boundary, q);
    assert q.env + [] == q.env;
  }

  lemma NextRead(boundary: string, q: Parser<seq<Item>>, next: Parser<seq<Item>>, items: seq<Item>)
    requires q.state == 4 && q.buffer == CRLF + next.buffer && next == q.(buffer := next.buffer, state := 1)
    requires ReadsItems(boundary, next, items)
    ensures ReadsItems(boundary, q, items)
  {
    NextPart(boundary, q, next);
  }

  lemma {:induction false} EntriesRead(items: seq<Item>, boundary: string, p: Parser<seq<Item>>)
    requires items != [] && AllWritable(items, boundary) && '\r' !in boundary
    requires p.state == 1 && p.buffer == Entry(items, boundary)
    ensures ReadsItems(boundary, p, items)
    decreases |items|, 1
  {
    var item, rest := items[0], items[1..];
    HeadAndTail(items);
    var after := Following(rest, boundary);
    PartRead(item, boundary, p, after);
    var q := p.(file := Described(item), env := p.env + [item], buffer := after, state := 4);
    FollowingRead(rest, boundary, q);
    ItemThenMore(boundary, p, q, item, rest);
  }

  lemma {:induction false} FollowingRead(items: seq<Item>, boundary: string, q: Parser<seq<Item>>)
    requires AllWritable(items, boundary) && '\r' !in boundary && q.state == 4 && q.buffer == Following(items, boundary)
    ensures ReadsItems(boundary, q, items)
    decreases |items|, 2
  {
    if items == [] {
      LastRead(boundary, q);
    } else {
      var next := q.(buffer := Entry(items, boundary), state := 1);
      EntriesRead(items, boundary, next);
      NextRead(boundary, q, next, items);
    }
  }

  /** The start of a written body. */
  lemma OpeningRead(items: seq<Item>, boundary: string, p: Parser<seq<Item>>)
    requires items != [] && p.state == 0 && p.buffer == Serialized(items, boundary)
    ensures var q := p.(buffer := Entry(items, boundary), state := 1);
      Step(boundary, Collector(), p) == Again(q) && Contains(p.buffer, Opening(boundary))
        && Find(p.buffer, Opening(boundary)) == 0
  {
    SerializedFromDelimiter(items, boundary);
    var opening := Opening(boundary);
    assert opening <= p.buffer && p.buffer[0..] == p.buffer && p.buffer[|opening|..] == Entry(items, boundary);
  }

  lemma BodyRead(items: seq<Item>, boundary: string)
    requires items != [] && AllWritable(items, boundary) && '\r' !in boundary
    ensures var r := Parse(boundary, Collector(), Fresh([]), Serialized(items, boundary));
            r.1 && r.0.isValid && r.0.env == items
    ensures AllShort(items) ==> Regular(boundary, Collector(), Fed(Fresh([]), Serialized(items, boundary)))
  {
    var p: Parser<seq<Item>> := Fed(Fresh([]), Serialized(items, boundary));
    assert p.buffer == Serialized(items, boundary);
    OpeningRead(items, boundary, p);
    EntriesRead(items, boundary, p.(buffer := Entry(items, boundary), state := 1));
    assert [] + items == items;
  }

  /** Round trip: a written body is valid and reads back as exactly the items written. */
  lemma WrittenReadsBack(items: seq<Item>, boundary: string)
    requires items != [] && AllWritable(items, boundary) && '\r' !in boundary
    ensures var r := Parse(boundary, Collector(), Fresh([]), Serialized(items, boundary));
            r.1 && r.0.isValid && r.0.env == items
  {
    BodyRead(items, boundary);
  }

  /** And so it does in any pieces that do not split the opening line. */
  lemma WrittenReadsBackHoweverCut(items: seq<Item>, boundary: string, pieces: seq<string>)
    requires items != [] && AllWritable(items, boundary) && AllShort(items) && '\r' !in boundary
    requires Concat(pieces) == Serialized(items, boundary) && OpeningWhole(Opening(boundary), pieces)
    ensures var r := ParseAll(boundary, Collector(), Fresh([]), pieces);
            r.1 && r.0.isValid && r.0.env == items
  {
    BodyRead(items, boundary);
    CollectorAppends();
    CuttingDoesNotMatter(boundary, Collector(), [], pieces);
  }
}
