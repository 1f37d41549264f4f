/**
  The interpretation of one header line of a part, with the two regular expressions it uses written out
  as plain matching.
 */
module MultipartHeaders {
  import opened Wrappers
  import opened HttpText
  import opened Sequences
  import opened Splitting
  import opened QueryString
  import opened HeaderField
  import MultipartSpec

  type FormData = MultipartSpec.FormData

  // ---------------------------------------------------------------- the regular expressions

  predicate OneLine(s: string) {
    '\r' !in s && '\n' !in s
  }

  /** The rest after `token`, in any case, and white space. */
  function After(token: string, s: string): Option<string> {
    if StartsIgnoringCase(s, token) then Some(SkipWhite(s[|token|..])) else None
  }

  /** The parameters of a form-data disposition: a header name, the type, and a rest without line ends. */
  function DispositionText(line: string): Option<string> {
    match After("Content-Disposition:", line)
    case None => None
    case Some(value) =>
      match After("form-data;", value)
      case None => None
      case Some(text) => if OneLine(text) then Some(text) else None
  }

  /** An extended value in UTF-8 without a language tag, percent-decoded. */
  function ExtendedName(value: string): Option<string> {
    if StartsIgnoringCase(value, "UTF-8''") && |value| > 7 && OneLine(value[7..]) then
      Some(Decode(value[7..], false))
    else
      None
  }

  // ---------------------------------------------------------------- disposition parameters

  function Unquote(s: string): string {
    if |s| >= 2 && s[0] == '"' && s[|s| - 1] == '"' then s[1..|s| - 1] else s
  }

  function DispositionParams(text: string): seq<Param> {
    AddPairs(Pieces(text, ';'), {}, Unquote, [])
  }

  method ParseDispositionParams(s: string) returns (params: seq<Param>)
    ensures params == DispositionParams(s)
  {
    params := [];
    var cache: set<string> := {};
    var texts := Split(s, ';');
    assert texts[0..] == texts;
    for i := 0 to |texts|
      invariant AddPairs(texts[i..], cache, Unquote, params) == AddPairs(texts, {}, Unquote, [])
    {
      assert texts[i..][1..] == texts[i + 1..];
      if texts[i] !in cache {
        cache := cache + {texts[i]};
        var key, value := ReadPair(texts[i]);
        if key != [] {
          params := Emplace(params, Param(Unquote(key), Unquote(value)));
        }
      }
    }
  }

  /** The first value under a key. */
  function Lookup(params: seq<Param>, key: string): Option<string> {
    if params == [] then None
    else if params[0].key == key then Some(params[0].value)
    else Lookup(params[1..], key)
  }

  function Named(file: FormData, params: seq<Param>): (FormData, bool) {
    match Lookup(params, "name")
    case None => (file, false)
    case Some(name) =>
      var named := match Lookup(params, "filename")
                   case None => file.(name := name)
                   case Some(filename) => file.(name := name, filename := filename);
      match Lookup(params, "filename*")
      case None => (named, true)
      case Some(value) =>
        match ExtendedName(value)
        case None => (named, false)
        case Some(filename) => (named.(filename := filename), true)
  }

  /** What one header line adds to the description of the part, and whether it is acceptable. */
  function HeaderLine(file: FormData, line: string): (FormData, bool) {
    if !IsField(line) then (file, false)
    else if StartsIgnoringCase(line, "Content-Type:") then (file.(contentType := Trim(line[13..])), true)
    else
      match DispositionText(line)
      case None => (file, true)
      case Some(text) => Named(file, DispositionParams(text))
  }

  method ReadHeaderLine(file: FormData, line: string) returns (r: (FormData, bool))
    ensures r == HeaderLine(file, line)
  {
    var field := ParseHeader(line);
    if field == None {
      return (file, false);
    }
    var isType := StartWithCaseIgnore(line, "Content-Type:");
    if isType {
      var value := TrimCopy(line[13..]);
      return (file.(contentType := value), true);
    }
    match DispositionText(line)
    case None => return (file, true);
    case Some(text) =>
      var params := ParseDispositionParams(text);
      return Named(file, params);
  }

  // ---------------------------------------------------------------- written lines read back

  const DISPOSITION := "Content-Disposition: form-data; "
  const CONTENT_TYPE := "Content-Type: "

  function Quoted(key: string, value: string): string {
    key + "=\"" + value + "\""
  }

  function NameText(name: string, filename: string): string {
    if filename == [] then Quoted("name", name) else Quoted("name", name) + "; " + Quoted("filename", filename)
  }

  /** A name that the coarse splitting at `;` and `=` leaves in one piece. */
  predicate PlainName(name: string) {
    ';' !in name && '=' !in name && '\r' !in name && '\n' !in name
  }

  lemma QuotedIsPiece(key: string, value: string, d: char)
    requires Piece(key, d) && d !in value && d != '=' && d != '"'
    ensures Piece(Quoted(key, value), d)
  {
    var text := Quoted(key, value);
    assert text[0] == key[0] && text[|text| - 1] == '"';
  }

  lemma QuotesComeOff(value: string)
    requires '=' !in value
    ensures Piece("\"" + value + "\"", '=') && Unquote("\"" + value + "\"") == value
  {
    var q := "\"" + value + "\"";
    assert q[0] == '"' && q[|q| - 1] == '"' && q[1..|q| - 1] == value;
  }

  lemma QuotedReads(key: string, value: string)
    requires Piece(key, '=') && key[0] != '"' && '=' !in value
    ensures Reads(Quoted(key, value), Unquote, Param(key, value))
  {
    var q := "\"" + value + "\"";
    QuotesComeOff(value);
    assert Quoted(key, value) == key + ['='] + q;
    TwoPieces(key, '=', q);
  }

  lemma NameReads(name: string)
    requires PlainName(name)
    ensures Piece(Quoted("name", name), ';') && Reads(Quoted("name", name), Unquote, Param("name", name))
  {
    QuotedIsPiece("name", name, ';');
    QuotedReads("name", name);
  }

  lemma FilenameReads(filename: string)
    requires PlainName(filename)
    ensures Piece(Quoted("filename", filename), ';')
            && Reads(Quoted("filename", filename), Unquote, Param("filename", filename))
  {
    QuotedIsPiece("filename", filename, ';');
    QuotedReads("filename", filename);
  }

  lemma FilenameComesFirst(name: string, filename: string)
    ensures Emplace([Param("name", name)], Param("filename", filename))
            == [Param("filename", filename), Param("name", name)]
  {
    var one := [Param("name", name)];
    assert Less("filename", "name");
    assert one[..0] == [];
  }

  lemma OneTextRead(a: string, p: Param)
    requires Piece(a, ';') && Reads(a, Unquote, p)
    ensures DispositionParams(a) == [p]
  {
    PieceThenMore(a, ';', []);
    AddsOne(a, [], {}, Unquote, [], p);
    assert [a] + [] == [a];
  }

  lemma TwoTextsRead(a: string, p: Param, b: string, q: Param)
    requires Piece(a, ';') && Reads(a, Unquote, p) && Piece(b, ';') && Reads(b, Unquote, q) && a != b
    ensures DispositionParams(a + [';'] + (" " + b)) == Emplace([p], q)
  {
    TwoPieces(a, ';', b);
    AddsOne(a, [b], {}, Unquote, [], p);
    AddsOne(b, [], {a}, Unquote, [p], q);
    assert [a] + [b] == [a, b] && [b] + [] == [b];
  }

  lemma TwoNamesText(name: string, filename: string)
    requires filename != []
    ensures NameText(name, filename) == Quoted("name", name) + [';'] + (" " + Quoted("filename", filename))
  {
    assert "; " == [';'] + " ";
  }

  /** The names written in a disposition read back. */
  lemma NamesReadBack(name: string, filename: string)
    requires PlainName(name) && PlainName(filename)
    ensures DispositionParams(NameText(name, filename))
            == if filename == [] then [Param("name", name)] else [Param("filename", filename), Param("name", name)]
  {
    var a, b := Quoted("name", name), Quoted("filename", filename);
    NameReads(name);
    if filename == [] {
      OneTextRead(a, Param("name", name));
    } else {
      FilenameReads(filename);
      assert a[0] == 'n' && b[0] == 'f';
      TwoTextsRead(a, Param("name", name), b, Param("filename", filename));
      FilenameComesFirst(name, filename);
      TwoNamesText(name, filename);
    }
  }

  lemma WrittenField(key: string, value: string)
    requires Piece(key, ':') && value != [] && Trimmed(value)
    ensures IsField(key + ": " + value)
  {
    WrittenSplits(key, value);
  }

  /** A written disposition is recognised, and its parameters start after the blank. */
  lemma DispositionRecognised(text: string)
    requires text != [] && !White(text[0]) && OneLine(text)
    ensures DispositionText(DISPOSITION + text) == Some(text)
    ensures !StartsIgnoringCase(DISPOSITION + text, "Content-Type:")
  {
    var line := DISPOSITION + text;
    var rest := "form-data; " + text;
    assert line[20..] == " " + rest;
    assert (" " + rest)[1..] == rest;
    assert SkipWhite(" " + rest) == rest;
    assert rest[10..] == " " + text;
    assert (" " + text)[1..] == text;
    assert SkipWhite(" " + text) == text;
    assert line[8] == 'D' && Lower('D') == 'd' && Lower("Content-Type:"[8]) == 't';
  }

  lemma DispositionIsField(text: string)
    requires text != [] && !Space(text[|text| - 1])
    ensures IsField(DISPOSITION + text)
  {
    var value := "form-data; " + text;
    assert value[0] == 'f' && value[|value| - 1] == text[|text| - 1];
    WrittenField("Content-Disposition", value);
    assert DISPOSITION == "Content-Disposition" + ": " + "form-data; ";
    Associate("Content-Disposition" + ": ", "form-data; ", text);
  }

  lemma LookupInOne(p: Param, key: string)
    ensures Lookup([p], key) == if p.key == key then Some(p.value) else None
  {
    assert [p][1..] == [];
  }

  lemma NamedAsWritten(file: FormData, name: string, filename: string)
    ensures Named(file, [Param("name", name)]) == (file.(name := name), true)
    ensures Named(file, [Param("filename", filename), Param("name", name)])
            == (file.(name := name, filename := filename), true)
  {
    assert "name"[0] == 'n' && "filename"[0] == 'f' && "filename*"[0] == 'f' && |"filename"| == 8 && |"filename*"| == 9;
    var p, q := Param("name", name), Param("filename", filename);
    LookupInOne(p, "name");
    LookupInOne(p, "filename");
    LookupInOne(p, "filename*");
    assert [q, p][1..] == [p];
  }

  lemma HeaderLineNames(file: FormData, line: string, text: string)
    requires IsField(line) && !StartsIgnoringCase(line, "Content-Type:") && DispositionText(line) == Some(text)
    ensures HeaderLine(file, line) == Named(file, DispositionParams(text))
  {
  }

  lemma NameTextIsPlain(name: string, filename: string)
    requires PlainName(name) && PlainName(filename)
    ensures var text := NameText(name, filename); text[0] == 'n' && text[|text| - 1] == '"' && OneLine(text)
  {
  }

  lemma DispositionReadsBack(file: FormData, name: string, filename: string)
    requires PlainName(name) && PlainName(filename)
    ensures HeaderLine(file, DISPOSITION + NameText(name, filename))
            == (if filename == [] then file.(name := name) else file.(name := name, filename := filename), true)
  {
    var text := NameText(name, filename);
    NameTextIsPlain(name, filename);
    DispositionIsField(text);
    DispositionRecognised(text);
    HeaderLineNames(file, DISPOSITION + text, text);
    NamesReadBack(name, filename);
    NamedAsWritten(file, name, filename);
  }

  lemma TypeIsField(contentType: string)
    requires contentType != [] && Trimmed(contentType)
    ensures IsField(CONTENT_TYPE + contentType)
  {
    WrittenField("Content-Type", contentType);
    assert CONTENT_TYPE == "Content-Type" + ": ";
  }

  lemma TypeTrimmed(contentType: string)
    requires contentType != [] && Trimmed(contentType)
    ensures Trim((" " + contentType)) == contentType
  {
    var rest := " " + contentType;
    TrimIs(rest, 1, |rest|);
    assert rest[1..|rest|] == contentType;
  }

  lemma ContentTypeReadsBack(file: FormData, contentType: string)
    requires contentType != [] && Trimmed(contentType)
    ensures HeaderLine(file, CONTENT_TYPE + contentType) == (file.(contentType := contentType), true)
  {
    TypeIsField(contentType);
    TypeTrimmed(contentType);
    assert (CONTENT_TYPE + contentType)[13..] == " " + contentType;
  }
}
