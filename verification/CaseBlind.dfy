/**
  Header lines in any spelling: matching ignores the case of letters and nothing else.
 */
module CaseBlind {
  import opened HeaderField
  import opened HttpText
  import opened MultipartHeaders
  import opened QueryString
  import opened Sequences
  import opened Splitting
  import opened Wrappers

  const CAPITALS := "ABCDEFGHIJKLMNOPQRSTUVWXYZ"
  const SMALLS := "abcdefghijklmnopqrstuvwxyz"

  /** The k-th capital and the k-th small letter. */
  predicate Paired(a: char, b: char, k: nat) {
    k < 26 && ((a == CAPITALS[k] && b == SMALLS[k]) || (a == SMALLS[k] && b == CAPITALS[k]))
  }

  /** The same character, or the capital and the small form of one letter. */
  ghost predicate SameLetter(a: char, b: char) {
    a == b || exists k: nat :: Paired(a, b, k)
  }

  lemma LetterAt(k: nat)
    requires k < 26
    ensures CAPITALS[k] == 'A' + k as char && SMALLS[k] == 'a' + k as char
  {
  }

  lemma PairedLower(a: char, b: char, k: nat)
    requires Paired(a, b, k)
    ensures Lower(a) == Lower(b)
  {
    LetterAt(k);
  }

  lemma LowerPaired(a: char, b: char)
    requires Lower(a) == Lower(b) && a != b
    ensures exists k: nat :: Paired(a, b, k)
  {
    var k: nat := (Lower(a) - 'a') as nat;
    LetterAt(k);
    assert Paired(a, b, k);
  }

  /** Two characters match exactly if they differ at most in the case of a letter. */
  lemma MatchesExactly(a: char, b: char)
    ensures Lower(a) == Lower(b) <==> SameLetter(a, b)
  {
    if Lower(a) == Lower(b) && a != b {
      LowerPaired(a, b);
    } else if SameLetter(a, b) && a != b {
      var k: nat :| Paired(a, b, k);
      PairedLower(a, b, k);
    }
  }

  /** The texts differ at most in the case of letters. */
  ghost predicate Respells(s: string, t: string) {
    |s| == |t| && forall i :: 0 <= i < |t| ==> SameLetter(s[i], t[i])
  }

  lemma StartsExactly(a: string, b: string)
    ensures StartsIgnoringCase(a, b) <==> |a| >= |b| && Respells(a[..|b|], b)
  {
    forall i | 0 <= i < |b| && |a| >= |b|
      ensures Lower(a[i]) == Lower(b[i]) <==> SameLetter(a[..|b|][i], b[i])
    {
      MatchesExactly(a[i], b[i]);
    }
  }

  lemma SameExactly(a: string, b: string)
    ensures SameIgnoringCase(a, b) <==> Respells(a, b)
  {
    StartsExactly(a, b);
    assert |a| == |b| ==> a[..|b|] == a;
  }

  lemma RespelledStarts(s: string, t: string, rest: string)
    requires Respells(s, t)
    ensures StartsIgnoringCase(s + rest, t) && (s + rest)[|t|..] == rest
  {
    StartsExactly(s + rest, t);
    assert (s + rest)[..|t|] == s;
  }

  // ---------------------------------------------------------------- fields

  /** Spaces and tabs. */
  predicate Blanks(s: string) {
    forall i :: 0 <= i < |s| ==> s[i] in " \t"
  }

  lemma TrimmedEndOf(s: string, blanks: string)
    requires Blanks(blanks) && s != [] && !Space(s[|s| - 1])
    ensures TrimEnd(s + blanks) == s
  {
    TrimEndIs(s + blanks, |s|);
    assert (s + blanks)[..|s|] == s;
  }

  lemma TrimmedStartOf(blanks: string, s: string)
    requires Blanks(blanks) && s != [] && !Space(s[0])
    ensures TrimStart(blanks + s) == s
  {
    TrimStartIs(blanks + s, |blanks|);
    assert (blanks + s)[|blanks|..] == s;
  }

  lemma TrimmedOf(before: string, s: string, after: string)
    requires Blanks(before) && Blanks(after) && s != [] && Trimmed(s)
    ensures Trim(before + s + after) == s
  {
    TrimmedStartOf(before, s + after);
    TrimmedEndOf(s, after);
    Associate(before, s, after);
  }

  lemma FieldSplits(key: string, before: string, value: string)
    requires key != [] && ':' !in key && Blanks(before) && value != [] && Trimmed(value)
    ensures var s := key + ":" + (before + value);
            IndexOf(s, ':') == |key| && s[..|key|] == key && TrimStart(s[|key| + 1..]) == value
  {
    var s := key + ":" + (before + value);
    IndexIs(s, ':', |key|);
    assert s[..|key|] == key && s[|key| + 1..] == before + value;
    TrimmedStartOf(before, value);
  }

  /** A field, with any blanks around its value: the name in any spelling of `Location` keeps the value as it is,
      any other has it decoded. */
  lemma FieldMeans(key: string, before: string, value: string, after: string)
    requires key != [] && ':' !in key && Blanks(before) && Blanks(after) && value != [] && Trimmed(value)
    ensures IsField(key + ":" + (before + value) + after)
    ensures var field := FieldOf(key + ":" + (before + value) + after);
            (Respells(key, "Location") ==> field == Some(Param(key, value)))
            && (!Respells(key, "Location") ==> field == Some(Param(key, Decode(value, false))))
  {
    var s := key + ":" + (before + value);
    assert s[|s| - 1] == value[|value| - 1];
    TrimmedEndOf(s, after);
    FieldSplits(key, before, value);
    SameExactly(key, "Location");
  }

  // ---------------------------------------------------------------- part headers

  /** White space, as `isspace` has it in the C locale. */
  predicate WhiteSpace(s: string) {
    forall i :: 0 <= i < |s| ==> s[i] in [' ', '\t', '\n', 11 as char, 12 as char, '\r']
  }

  lemma {:induction false} WhiteSkipped(white: string, s: string)
    requires WhiteSpace(white) && s != [] && !White(s[0])
    ensures SkipWhite(white + s) == s
  {
    if white == [] {
      assert white + s == s;
    } else {
      assert White(white[0]) && (white + s)[1..] == white[1..] + s;
      WhiteSkipped(white[1..], s);
    }
  }

  lemma AfterToken(spelled: string, token: string, white: string, s: string)
    requires Respells(spelled, token) && WhiteSpace(white) && s != [] && !White(s[0])
    ensures After(token, spelled + (white + s)) == Some(s)
  {
    RespelledStarts(spelled, token, white + s);
    WhiteSkipped(white, s);
  }

  /** A disposition in any spelling, with any white space after its two fixed words. */
  function Disposition(name: string, white: string, kind: string, white1: string, text: string): string {
    name + (white + (kind + (white1 + text)))
  }

  ghost predicate IsDisposition(name: string, white: string, kind: string, white1: string, text: string) {
    Respells(name, "Content-Disposition:") && Respells(kind, "form-data;") && WhiteSpace(white) && WhiteSpace(white1)
    && text != [] && !White(text[0]) && !Space(text[|text| - 1]) && OneLine(text)
  }

  lemma LetterIsNoWhite(a: char, b: char)
    requires SameLetter(a, b) && 'a' <= b <= 'z'
    ensures !White(a)
  {
    MatchesExactly(a, b);
  }

  lemma DispositionFound(name: string, white: string, kind: string, white1: string, text: string)
    requires IsDisposition(name, white, kind, white1, text)
    ensures DispositionText(Disposition(name, white, kind, white1, text)) == Some(text)
  {
    AfterToken(kind, "form-data;", white1, text);
    LetterIsNoWhite(kind[0], "form-data;"[0]);
    AfterToken(name, "Content-Disposition:", white, kind + (white1 + text));
  }

  lemma DispositionIsNoType(name: string, rest: string)
    requires Respells(name, "Content-Disposition:")
    ensures !StartsIgnoringCase(name + rest, "Content-Type:")
  {
    assert (name + rest)[8] == name[8];
    MatchesExactly(name[8], "Content-Disposition:"[8]);
    assert Lower("Content-Disposition:"[8]) == 'd' && Lower("Content-Type:"[8]) == 't';
  }

  lemma RespelledColon(s: string, t: string, i: nat)
    requires Respells(s, t) && i < |t|
    ensures s[i] == ':' <==> t[i] == ':'
  {
    MatchesExactly(s[i], t[i]);
  }

  /** A line is a field if it has a name, a colon, and something after it. */
  lemma LineIsField(line: string, k: nat, last: nat)
    requires 0 < k < last < |line| && last == |line| - 1 && line[k] == ':' && !Space(line[last])
    requires forall i :: 0 <= i < k ==> line[i] != ':'
    ensures IsField(line)
  {
    TrimEndIs(line, |line|);
    assert line[..|line|] == line;
    IndexIs(line, ':', k);
    SomethingLeft(line[k + 1..]);
  }

  lemma {:induction false} SomethingLeft(s: string)
    requires s != [] && !Space(s[|s| - 1])
    ensures TrimStart(s) != []
  {
    if Space(s[0]) {
      SomethingLeft(s[1..]);
    }
  }

  lemma DispositionIsField(name: string, white: string, kind: string, white1: string, text: string)
    requires IsDisposition(name, white, kind, white1, text)
    ensures IsField(Disposition(name, white, kind, white1, text))
  {
    var rest := white + (kind + (white1 + text));
    var line := name + rest;
    assert line[|line| - 1] == text[|text| - 1];
    forall i | 0 <= i < 20
      ensures line[i] == ':' <==> i == 19
    {
      RespelledColon(name, "Content-Disposition:", i);
      assert line[i] == name[i];
      ColonAt(i);
    }
    LineIsField(line, 19, |line| - 1);
  }

  lemma ColonAt(i: nat)
    requires i < 20
    ensures "Content-Disposition:"[i] == ':' <==> i == 19
  {
  }

  /** What a disposition says, in any spelling, is what its parameters say. */
  lemma DispositionMeans(file: FormData, name: string, white: string, kind: string, white1: string, text: string)
    requires IsDisposition(name, white, kind, white1, text)
    ensures HeaderLine(file, Disposition(name, white, kind, white1, text)) == Named(file, DispositionParams(text))
  {
    DispositionIsField(name, white, kind, white1, text);
    DispositionIsNoType(name, white + (kind + (white1 + text)));
    DispositionFound(name, white, kind, white1, text);
    HeaderLineNames(file, Disposition(name, white, kind, white1, text), text);
  }

  /** A written disposition reads back in any spelling of its fixed words. */
  lemma DispositionReadsBackInAnyCase(file: FormData, head: string, white: string, kind: string, white1: string,
                                      name: string, filename: string)
    requires Respells(head, "Content-Disposition:") && Respells(kind, "form-data;")
    requires WhiteSpace(white) && WhiteSpace(white1) && PlainName(name) && PlainName(filename)
    ensures HeaderLine(file, Disposition(head, white, kind, white1, NameText(name, filename)))
            == (if filename == [] then file.(name := name) else file.(name := name, filename := filename), true)
  {
    NameTextIsPlain(name, filename);
    DispositionMeans(file, head, white, kind, white1, NameText(name, filename));
    NamesReadBack(name, filename);
    NamedAsWritten(file, name, filename);
  }

  lemma TypeHeadRespelled(key: string)
    requires Respells(key, "Content-Type")
    ensures Respells(key + ":", "Content-Type:") && ':' !in key
  {
    forall i | 0 <= i < 12
      ensures key[i] != ':' && "Content-Type:"[i] == "Content-Type"[i]
    {
      MatchesExactly(key[i], "Content-Type"[i]);
      NoColonAt(i);
    }
  }

  lemma NoColonAt(i: nat)
    requires i < 12
    ensures Lower("Content-Type"[i]) != ':' && "Content-Type:"[i] == "Content-Type"[i]
  {
  }

  /** So does a content type, with any blanks around it. */
  lemma ContentTypeReadsBackInAnyCase(file: FormData, key: string, before: string, contentType: string, after: string)
    requires Respells(key, "Content-Type") && Blanks(before) && Blanks(after)
    requires contentType != [] && Trimmed(contentType)
    ensures HeaderLine(file, key + ":" + (before + contentType) + after) == (file.(contentType := contentType), true)
  {
    var line := key + ":" + (before + contentType) + after;
    TypeHeadRespelled(key);
    FieldMeans(key, before, contentType, after);
    RespelledStarts(key + ":", "Content-Type:", before + contentType + after);
    Associate(key + ":", before + contentType, after);
    TrimmedOf(before, contentType, after);
  }

  // ---------------------------------------------------------------- extended file names

  function ExtendedText(prefix: string, filename: string): string
    requires IsByteString(filename)
  {
    "filename*=" + (prefix + Encode(filename))
  }

  lemma PrefixRespelled(prefix: string)
    requires Respells(prefix, "UTF-8''")
    ensures '=' !in prefix && ';' !in prefix && OneLine(prefix) && !White(prefix[0]) && prefix[0] != '"'
  {
    forall i | 0 <= i < 7
      ensures prefix[i] !in "=;\r\n \t\"" && (i == 0 ==> prefix[0] in "Uu")
    {
      MatchesExactly(prefix[i], "UTF-8''"[i]);
      PrefixAt(i, prefix[i]);
    }
  }

  lemma PrefixAt(i: nat, c: char)
    requires i < 7 && Lower(c) == Lower("UTF-8''"[i])
    ensures c !in "=;\r\n \t\"" && (i == 0 ==> c in "Uu")
  {
  }

  /** Encoded text is one line without delimiters and blanks. */
  lemma EncodedIsBare(filename: string, e: string)
    requires IsByteString(filename) && e == Encode(filename) && filename != []
    ensures '=' !in e && ';' !in e && OneLine(e) && e != [] && !Space(e[|e| - 1]) && e[|e| - 1] != '"'
  {
    EncodedCharacters(filename);
  }

  lemma ExtendedValue(prefix: string, filename: string)
    requires Respells(prefix, "UTF-8''") && IsByteString(filename) && filename != []
    ensures ExtendedName(prefix + Encode(filename)) == Some(filename)
  {
    EncodedIsBare(filename, Encode(filename));
    RespelledStarts(prefix, "UTF-8''", Encode(filename));
    DecodeUndoesEncode(filename, false);
  }

  lemma ExtendedReads(prefix: string, filename: string)
    requires Respells(prefix, "UTF-8''") && IsByteString(filename) && filename != []
    ensures Piece(ExtendedText(prefix, filename), ';')
    ensures Reads(ExtendedText(prefix, filename), Unquote, Param("filename*", prefix + Encode(filename)))
  {
    var e := Encode(filename);
    PrefixRespelled(prefix);
    EncodedIsBare(filename, e);
    ExtendedPieces(prefix, e, prefix + e);
  }

  lemma PieceOfTwo(a: string, b: string, d: char)
    requires a != [] && !Space(a[0]) && d !in a && b != [] && !Space(b[|b| - 1]) && d !in b
    ensures Piece(a + b, d)
  {
    assert (a + b)[|a + b| - 1] == b[|b| - 1];
  }

  lemma ExtendedPieces(prefix: string, e: string, value: string)
    requires value == prefix + e && prefix != [] && e != []
    requires '=' !in prefix && ';' !in prefix && '=' !in e && ';' !in e
    requires !White(prefix[0]) && prefix[0] != '"' && !Space(e[|e| - 1])
    ensures Piece("filename*=" + value, ';')
    ensures Reads("filename*=" + value, Unquote, Param("filename*", value))
  {
    PieceOfTwo(prefix, e, '=');
    PieceOfTwo(prefix, e, ';');
    PieceOfTwo("filename*=", value, ';');
    assert "filename*=" == "filename*" + ['='];
    ValueAfterName("filename*", value);
  }

  lemma ValueAfterName(key: string, value: string)
    requires Piece(key, '=') && Piece(value, '=') && key[0] != '"' && value[0] != '"'
    ensures Reads(key + ['='] + value, Unquote, Param(key, value))
  {
    TwoPieces(key, '=', value);
  }

  lemma ExtendedComesFirst(name: string, value: string)
    ensures Emplace([Param("name", name)], Param("filename*", value))
            == [Param("filename*", value), Param("name", name)]
  {
    assert Less("filename*", "name");
    assert [Param("name", name)][..0] == [];
  }

  lemma NamedExtended(file: FormData, name: string, value: string, filename: string)
    requires ExtendedName(value) == Some(filename)
    ensures Named(file, [Param("filename*", value), Param("name", name)])
            == (file.(name := name, filename := filename), true)
  {
    var p, q := Param("name", name), Param("filename*", value);
    assert "name"[0] == 'n' && "filename"[0] == 'f' && "filename*"[0] == 'f' && |"filename"| == 8 && |"filename*"| == 9;
    LookupInOne(p, "name");
    LookupInOne(p, "filename");
    assert [q, p][1..] == [p];
  }

  lemma ExtendedParams(name: string, prefix: string, filename: string, text: string)
    requires PlainName(name) && Respells(prefix, "UTF-8''") && IsByteString(filename) && filename != []
    requires text == Quoted("name", name) + [';'] + (" " + ExtendedText(prefix, filename))
    ensures DispositionParams(text) == [Param("filename*", prefix + Encode(filename)), Param("name", name)]
  {
    var a, b := Quoted("name", name), ExtendedText(prefix, filename);
    NameReads(name);
    ExtendedReads(prefix, filename);
    assert a[0] == 'n' && b[0] == 'f';
    TwoTextsRead(a, Param("name", name), b, Param("filename*", prefix + Encode(filename)));
    ExtendedComesFirst(name, prefix + Encode(filename));
  }

  lemma ExtendedIsPlain(name: string, prefix: string, e: string, text: string)
    requires PlainName(name) && OneLine(prefix) && OneLine(e) && e != [] && !Space(e[|e| - 1])
    requires text == Quoted("name", name) + [';'] + (" " + ("filename*=" + (prefix + e)))
    ensures text[0] == 'n' && !Space(text[|text| - 1]) && OneLine(text)
  {
    assert text[|text| - 1] == e[|e| - 1];
  }

  /** An extended file name of any bytes, percent-encoded after `UTF-8''` in any spelling, is the file name. */
  lemma ExtendedNameReadsBack(file: FormData, head: string, white: string, kind: string, white1: string,
                              name: string, prefix: string, filename: string)
    requires Respells(head, "Content-Disposition:") && Respells(kind, "form-data;")
    requires WhiteSpace(white) && WhiteSpace(white1) && PlainName(name)
    requires Respells(prefix, "UTF-8''") && IsByteString(filename) && filename != []
    ensures var text := Quoted("name", name) + [';'] + (" " + ExtendedText(prefix, filename));
            HeaderLine(file, Disposition(head, white, kind, white1, text))
            == (file.(name := name, filename := filename), true)
  {
    var text := Quoted("name", name) + [';'] + (" " + ExtendedText(prefix, filename));
    PrefixRespelled(prefix);
    EncodedIsBare(filename, Encode(filename));
    ExtendedIsPlain(name, prefix, Encode(filename), text);
    DispositionMeans(file, head, white, kind, white1, text);
    ExtendedParams(name, prefix, filename, text);
    ExtendedValue(prefix, filename);
    NamedExtended(file, name, prefix + Encode(filename), filename);
  }

  /** Any other extended value refuses the line: one without that prefix, or with nothing after it. */
  lemma OtherExtendedRefused(file: FormData, name: string, value: string)
    requires |value| < 8 || !Respells(value[..7], "UTF-8''") || !OneLine(value[7..])
    ensures Named(file, [Param("filename*", value), Param("name", name)]) == (file.(name := name), false)
  {
    var p, q := Param("name", name), Param("filename*", value);
    StartsExactly(value, "UTF-8''");
    assert "name"[0] == 'n' && "filename"[0] == 'f' && "filename*"[0] == 'f' && |"filename"| == 8 && |"filename*"| == 9;
    LookupInOne(p, "name");
    LookupInOne(p, "filename");
    assert [q, p][1..] == [p];
  }
}
