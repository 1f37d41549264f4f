/**
  What one header line of a part means, for every line: refused, a content type, a disposition, or nothing.
 */
module PartHeaders {
  import opened CaseBlind
  import opened HeaderField
  import opened HttpText
  import opened MultipartHeaders
  import opened QueryString
  import opened Sequences
  import opened Splitting
  import opened Wrappers

  // ---------------------------------------------------------------- fields

  /** A name, a colon, and a value with any blanks around it. */
  predicate IsFieldText(line: string, key: string, before: string, value: string, after: string) {
    line == key + ":" + (before + value) + after
    && key != [] && ':' !in key && Blanks(before) && Blanks(after) && value != [] && Trimmed(value)
  }

  ghost predicate IsFieldLine(line: string) {
    exists key: string, before: string, value: string, after: string :: IsFieldText(line, key, before, value, after)
  }

  predicate EndsBare(s: string) {
    s != [] ==> !Space(s[|s| - 1])
  }

  lemma BlankMore(blanks: string, c: char)
    requires Blanks(blanks) && Space(c)
    ensures Blanks([c] + blanks)
  {
  }

  /** Where the blanks at the end begin. */
  lemma {:induction false} BlanksFrom(s: string, i: nat) returns (j: nat)
    requires i <= |s| && forall k :: i <= k < |s| ==> Space(s[k])
    ensures j <= |s| && (forall k :: j <= k < |s| ==> Space(s[k])) && (j > 0 ==> !Space(s[j - 1]))
  {
    if i > 0 && Space(s[i - 1]) {
      j := BlanksFrom(s, i - 1);
    } else {
      j := i;
    }
  }

  lemma BlanksAfter(s: string) returns (t: string, after: string)
    ensures t == TrimEnd(s) && s == t + after && Blanks(after) && EndsBare(t)
  {
    var j := BlanksFrom(s, |s|);
    TrimEndIs(s, j);
    t, after := s[..j], s[j..];
  }

  lemma {:induction false} BlanksBefore(s: string) returns (before: string, value: string)
    ensures value == TrimStart(s) && s == before + value && Blanks(before) && (value != [] ==> !Space(value[0]))
  {
    if s != [] && Space(s[0]) {
      var rest: string;
      rest, value := BlanksBefore(s[1..]);
      BlankMore(rest, s[0]);
      before := [s[0]] + rest;
      HeadAndTail(s);
      Associate([s[0]], rest, value);
    } else {
      before, value := [], s;
    }
  }

  lemma LastOfRest(s: string, k: nat, before: string, value: string)
    requires k < |s| && s[k + 1..] == before + value && value != []
    ensures value[|value| - 1] == s[|s| - 1]
  {
    assert (before + value)[|before + value| - 1] == value[|value| - 1];
  }

  lemma FieldParts(line: string, s: string, k: nat, before: string, value: string, after: string)
    requires line == s + after && 0 < k < |s| && s[k] == ':' && ':' !in s[..k] && s[k + 1..] == before + value
    requires Blanks(before) && Blanks(after) && value != [] && !Space(value[0]) && EndsBare(s)
    ensures IsFieldText(line, s[..k], before, value, after)
  {
    LastOfRest(s, k, before, value);
    assert s == s[..k] + ":" + s[k + 1..];
  }

  lemma FieldHasText(line: string)
    requires IsField(line)
    ensures IsFieldLine(line)
  {
    var s, after := BlanksAfter(line);
    var k := IndexOf(s, ':');
    IndexIsFirst(s, ':');
    var before, value := BlanksBefore(s[k + 1..]);
    FieldParts(line, s, k, before, value, after);
  }

  /** A line is accepted as a field exactly if it has this form. */
  lemma FieldExactly(line: string)
    ensures IsField(line) <==> IsFieldLine(line)
  {
    if IsField(line) {
      FieldHasText(line);
    } else if IsFieldLine(line) {
      var key: string, before: string, value: string, after: string :| IsFieldText(line, key, before, value, after);
      FieldMeans(key, before, value, after);
    }
  }

  // ---------------------------------------------------------------- dispositions

  /** The two fixed words in any spelling, with any white space after them, and one line of text. */
  ghost predicate IsDispositionText(line: string, name: string, white: string, kind: string, white1: string,
                                    text: string) {
    line == Disposition(name, white, kind, white1, text)
    && Respells(name, "Content-Disposition:") && Respells(kind, "form-data;") && WhiteSpace(white)
    && WhiteSpace(white1) && (text != [] ==> !White(text[0])) && OneLine(text)
  }

  ghost predicate IsDispositionLine(line: string, text: string) {
    exists name: string, white: string, kind: string, white1: string ::
      IsDispositionText(line, name, white, kind, white1, text)
  }

  lemma {:induction false} WhiteBefore(s: string) returns (white: string)
    ensures s == white + SkipWhite(s) && WhiteSpace(white) && (SkipWhite(s) != [] ==> !White(SkipWhite(s)[0]))
  {
    if s != [] && White(s[0]) {
      var rest := WhiteBefore(s[1..]);
      white := [s[0]] + rest;
      HeadAndTail(s);
    } else {
      white := [];
    }
  }

  lemma {:induction false} OnlyWhite(white: string)
    requires WhiteSpace(white)
    ensures SkipWhite(white) == []
  {
    if white != [] {
      assert White(white[0]);
      OnlyWhite(white[1..]);
    }
  }

  lemma BeforeAfter(token: string, s: string, rest: string) returns (spelled: string, white: string)
    requires After(token, s) == Some(rest)
    ensures s == spelled + (white + rest) && Respells(spelled, token) && WhiteSpace(white)
    ensures rest != [] ==> !White(rest[0])
  {
    StartsExactly(s, token);
    spelled := s[..|token|];
    white := WhiteBefore(s[|token|..]);
  }

  lemma AfterLast(spelled: string, token: string, white: string, s: string)
    requires Respells(spelled, token) && WhiteSpace(white) && (s != [] ==> !White(s[0]))
    ensures After(token, spelled + (white + s)) == Some(s)
  {
    if s == [] {
      RespelledStarts(spelled, token, white + s);
      assert white + s == white;
      OnlyWhite(white);
    } else {
      AfterToken(spelled, token, white, s);
    }
  }

  lemma DispositionHasText(line: string, text: string)
    requires DispositionText(line) == Some(text)
    ensures IsDispositionLine(line, text)
  {
    var rest := After("Content-Disposition:", line).value;
    var name, white := BeforeAfter("Content-Disposition:", line, rest);
    var kind, white1 := BeforeAfter("form-data;", rest, text);
    assert IsDispositionText(line, name, white, kind, white1, text);
  }

  /** The regular expression matches a line, with this text as its group, exactly if the line has this form. */
  lemma DispositionExactly(line: string, text: string)
    ensures DispositionText(line) == Some(text) <==> IsDispositionLine(line, text)
  {
    if DispositionText(line) == Some(text) {
      DispositionHasText(line, text);
    } else if IsDispositionLine(line, text) {
      var name: string, white: string, kind: string, white1: string
        :| IsDispositionText(line, name, white, kind, white1, text);
      AfterLast(kind, "form-data;", white1, text);
      LetterIsNoWhite(kind[0], "form-data;"[0]);
      AfterToken(name, "Content-Disposition:", white, kind + (white1 + text));
    }
  }

  // ---------------------------------------------------------------- parameters

  /** The first parameter with this key. */
  predicate IsFirst(params: seq<Param>, key: string, i: nat) {
    i < |params| && params[i].key == key && forall j :: 0 <= j < i ==> params[j].key != key
  }

  predicate HasNone(params: seq<Param>, key: string) {
    forall j :: 0 <= j < |params| ==> params[j].key != key
  }

  lemma {:induction false} LookupMeans(params: seq<Param>, key: string, i: nat)
    ensures HasNone(params, key) ==> Lookup(params, key) == None
    ensures IsFirst(params, key, i) ==> Lookup(params, key) == Some(params[i].value)
  {
    if params != [] && params[0].key != key && i > 0 {
      LookupMeans(params[1..], key, i - 1);
    } else if params != [] && params[0].key != key {
      LookupMeans(params[1..], key, 0);
    }
  }

  /** An extended name is one line of percent-encoded text after `UTF-8''` in any spelling. */
  lemma ExtendedExactly(value: string, filename: string)
    ensures ExtendedName(value) == Some(filename)
            <==> |value| > 7 && Respells(value[..7], "UTF-8''") && OneLine(value[7..])
                 && filename == Decode(value[7..], false)
  {
    StartsExactly(value, "UTF-8''");
  }

  /** A disposition without a name is refused.  With one it gives the name, and an extended file name goes before
      a plain one. */
  lemma NamedMeans(file: FormData, params: seq<Param>, i: nat, j: nat, k: nat)
    ensures HasNone(params, "name") ==> Named(file, params) == (file, false)
    ensures IsFirst(params, "name", i) && HasNone(params, "filename") && HasNone(params, "filename*") ==>
              Named(file, params) == (file.(name := params[i].value), true)
    ensures IsFirst(params, "name", i) && IsFirst(params, "filename", j) && HasNone(params, "filename*") ==>
              Named(file, params) == (file.(name := params[i].value, filename := params[j].value), true)
    ensures IsFirst(params, "name", i) && IsFirst(params, "filename*", k) ==>
              match ExtendedName(params[k].value)
              case Some(filename) => Named(file, params) == (file.(name := params[i].value, filename := filename), true)
              case None => !Named(file, params).1
  {
    LookupMeans(params, "name", i);
    LookupMeans(params, "filename", j);
    LookupMeans(params, "filename*", k);
  }

  // ---------------------------------------------------------------- lines

  /** Every header line: one that is no field is refused, one that is neither a content type nor a disposition is
      passed over. */
  lemma LineMeans(file: FormData, line: string, text: string)
    ensures !IsFieldLine(line) ==> HeaderLine(file, line) == (file, false)
    ensures IsFieldLine(line) && |line| >= 13 && Respells(line[..13], "Content-Type:") ==>
              HeaderLine(file, line) == (file.(contentType := Trim(line[13..])), true)
    ensures IsFieldLine(line) && IsDispositionLine(line, text) ==>
              HeaderLine(file, line) == Named(file, DispositionParams(text))
    ensures IsFieldLine(line) && !(|line| >= 13 && Respells(line[..13], "Content-Type:"))
            && (forall t: string :: !IsDispositionLine(line, t)) ==>
              HeaderLine(file, line) == (file, true)
  {
    FieldExactly(line);
    StartsExactly(line, "Content-Type:");
    DispositionExactly(line, text);
    if IsDispositionLine(line, text) {
      var name: string, white: string, kind: string, white1: string
        :| IsDispositionText(line, name, white, kind, white1, text);
      DispositionIsNoType(name, white + (kind + (white1 + text)));
    }
    if DispositionText(line).Some? {
      DispositionExactly(line, DispositionText(line).value);
    }
  }
}
