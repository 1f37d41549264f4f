/**
  Trimming and splitting of header values, query strings and disposition parameters.
 */
module Splitting {
  import opened Sequences

  predicate Space(c: char) {
    c == ' ' || c == '\t'
  }

  function TrimStart(s: string): (r: string)
    ensures |r| <= |s|
  {
    if s != [] && Space(s[0]) then TrimStart(s[1..]) else s
  }

  function TrimEnd(s: string): (r: string)
    ensures |r| <= |s|
  {
    if s != [] && Space(s[|s| - 1]) then TrimEnd(s[..|s| - 1]) else s
  }

  /** The text without the blanks at its ends. */
  function Trim(s: string): string {
    TrimEnd(TrimStart(s))
  }

  predicate Trimmed(s: string) {
    s != [] ==> !Space(s[0]) && !Space(s[|s| - 1])
  }

  lemma {:induction false} TrimStartIs(s: string, i: nat)
    requires i <= |s| && (forall k :: 0 <= k < i ==> Space(s[k])) && (i < |s| ==> !Space(s[i]))
    ensures TrimStart(s) == s[i..]
  {
    if i > 0 {
      TrimStartIs(s[1..], i - 1);
      assert s[1..][i - 1..] == s[i..];
    } else {
      assert s[0..] == s;
    }
  }

  lemma {:induction false} TrimEndIs(s: string, j: nat)
    requires j <= |s| && (forall k :: j <= k < |s| ==> Space(s[k])) && (j > 0 ==> !Space(s[j - 1]))
    ensures TrimEnd(s) == s[..j]
    decreases |s|
  {
    if j < |s| {
      TrimEndIs(s[..|s| - 1], j);
      assert s[..|s| - 1][..j] == s[..j];
    } else {
      assert s[..j] == s;
    }
  }

  /** `Trim` is what lies between the first and the last character that is not blank. */
  lemma TrimIs(s: string, i: nat, j: nat)
    requires i <= |s| && (forall k :: 0 <= k < i ==> Space(s[k])) && (i < |s| ==> !Space(s[i]))
    requires j <= |s| && (forall k :: j <= k < |s| ==> Space(s[k])) && (j > 0 ==> !Space(s[j - 1]))
    ensures if i < j then Trim(s) == s[i..j] else Trim(s) == []
  {
    TrimStartIs(s, i);
    if i < |s| {
      assert i < j by {
        assert !Space(s[i]);
      }
      assert s[i..][j - 1 - i] == s[j - 1];
      TrimEndIs(s[i..], j - i);
      assert s[i..][..j - i] == s[i..j];
    }
  }

  /** A text that begins and ends with something else is left alone. */
  lemma TrimOfTrimmed(s: string)
    requires Trimmed(s)
    ensures Trim(s) == s
  {
  }

  lemma TrimOfRange(b: string, left: nat, right: nat, l: nat, r: nat)
    requires left <= l <= right <= |b| && r <= right
    requires (forall k :: left <= k < l ==> Space(b[k])) && (l < right ==> !Space(b[l]))
    requires (forall k :: r <= k < right ==> Space(b[k])) && (r > 0 ==> !Space(b[r - 1]))
    ensures if l < r then Trim(b[left..right]) == b[l..r] else Trim(b[left..right]) == []
  {
    var s := b[left..right];
    assert forall k :: 0 <= k < |s| ==> s[k] == b[left + k];
    if r > left {
      assert s[r - left - 1] == b[r - 1];
      TrimIs(s, l - left, r - left);
      assert l < r ==> s[l - left..r - left] == b[l..r];
    } else {
      TrimIs(s, l - left, 0);
    }
  }

  /** The range of b[left..right] without blanks; empty when there is nothing else.  Going up from `left` may
      run past `right`, and going down from `right` stops at no lower bound but zero. */
  method TrimRange(b: string, left: nat, right: nat) returns (l: nat, r: nat)
    requires left <= right <= |b|
    ensures l < r ==> left <= l && r <= right && b[l..r] == Trim(b[left..right])
    ensures l >= r ==> Trim(b[left..right]) == []
  {
    l := left;
    while l < |b| && Space(b[l])
      invariant left <= l <= |b|
      invariant forall k :: left <= k < l ==> Space(b[k])
    {
      l := l + 1;
    }
    r := right;
    while r > 0 && Space(b[r - 1])
      invariant r <= right
      invariant forall k :: r <= k < right ==> Space(b[k])
    {
      r := r - 1;
    }
    TrimOfRange(b, left, right, if l <= right then l else right, r);
  }

  method TrimCopy(s: string) returns (r: string)
    ensures r == Trim(s)
  {
    var left, right := TrimRange(s, 0, |s|);
    assert s[0..|s|] == s;
    r := if left < right then s[left..right] else [];
  }

  /** The trimmed text, dropped when nothing is left of it. */
  function Kept(s: string): seq<string> {
    if Trim(s) == [] then [] else [Trim(s)]
  }

  /** The texts between the delimiters, trimmed, without the empty ones. */
  function Pieces(s: string, d: char): seq<string>
    decreases |s|
  {
    var k := IndexOf(s, d);
    if k == |s| then Kept(s) else Kept(s[..k]) + Pieces(s[k + 1..], d)
  }

  lemma PiecesAt(b: string, d: char, beg: nat, i: nat)
    requires beg <= i <= |b| && (i < |b| ==> b[i] == d) && forall k :: beg <= k < i ==> b[k] != d
    ensures Pieces(b[beg..], d) == Kept(b[beg..i]) + if i < |b| then Pieces(b[i + 1..], d) else []
  {
    IndexIs(b[beg..], d, i - beg);
    assert b[beg..][..i - beg] == b[beg..i];
    if i < |b| {
      assert b[beg..][i - beg + 1..] == b[i + 1..];
    } else {
      assert b[beg..] == b[beg..i];
    }
  }

  /** `more` are the pieces of the text from a position on. */
  ghost predicate ToCome(b: string, d: char, pos: nat, more: seq<string>) {
    pos <= |b| && more == Pieces(b[pos..], d)
  }

  /** No delimiter between two positions. */
  predicate FreeOf(b: string, d: char, start: nat, end: nat) {
    start <= end <= |b| && forall k :: start <= k < end ==> b[k] != d
  }

  lemma PieceTakenOff(b: string, d: char, beg: nat, i: nat, more: seq<string>) returns (rest: seq<string>)
    requires FreeOf(b, d, beg, i) && i < |b| && b[i] == d && ToCome(b, d, beg, more)
    ensures ToCome(b, d, i + 1, rest) && more == Kept(b[beg..i]) + rest
  {
    PiecesAt(b, d, beg, i);
    rest := Pieces(b[i + 1..], d);
  }

  lemma LastPiece(b: string, d: char, beg: nat, more: seq<string>)
    requires FreeOf(b, d, beg, |b|) && ToCome(b, d, beg, more)
    ensures more == Kept(b[beg..|b|])
  {
    PiecesAt(b, d, beg, |b|);
  }

  lemma WholeToCome(b: string, d: char)
    ensures ToCome(b, d, 0, Pieces(b, d)) && FreeOf(b, d, 0, 0)
  {
    assert b[0..] == b;
  }

  lemma NothingKept(s: string, pieces: seq<string>)
    requires s == []
    ensures pieces + Kept(s) == pieces
  {
    assert Trim(s) == [];
  }

  method KeptPart(b: string, left: nat, right: nat) returns (kept: seq<string>)
    requires left <= right <= |b|
    ensures kept == Kept(b[left..right])
  {
    var l, r := TrimRange(b, left, right);
    kept := if l < r then [b[l..r]] else [];
  }

  /** The text up to a delimiter taken off. */
  method SplitOff(pieces0: seq<string>, b: string, ghost d: char, beg: nat, i: nat, ghost more: seq<string>)
    returns (pieces: seq<string>, ghost rest: seq<string>)
    requires FreeOf(b, d, beg, i) && i < |b| && b[i] == d && ToCome(b, d, beg, more)
    ensures ToCome(b, d, i + 1, rest) && pieces + rest == pieces0 + more
  {
    rest := PieceTakenOff(b, d, beg, i, more);
    var kept := KeptPart(b, beg, i);
    pieces := pieces0 + kept;
    Associate(pieces0, kept, rest);
  }

  /** The text after the last delimiter. */
  method SplitLast(pieces0: seq<string>, b: string, ghost d: char, beg: nat, ghost more: seq<string>)
    returns (pieces: seq<string>)
    requires FreeOf(b, d, beg, |b|) && ToCome(b, d, beg, more)
    ensures pieces == pieces0 + more
  {
    LastPiece(b, d, beg, more);
    pieces := pieces0;
    if |b| > 0 {
      var kept := KeptPart(b, beg, |b|);
      pieces := pieces0 + kept;
    } else {
      NothingKept(b[beg..|b|], pieces0);
    }
  }

  method Split(b: string, d: char) returns (pieces: seq<string>)
    ensures pieces == Pieces(b, d)
  {
    pieces := [];
    var i, beg: nat := 0, 0;
    ghost var more := Pieces(b, d);
    WholeToCome(b, d);
    while i < |b|
      invariant i <= |b| && FreeOf(b, d, beg, i) && ToCome(b, d, beg, more)
      invariant pieces + more == Pieces(b, d)
    {
      if b[i] == d {
        pieces, more := SplitOff(pieces, b, d, beg, i, more);
        beg := i + 1;
      }
      i := i + 1;
    }
    pieces := SplitLast(pieces, b, d, beg, more);
  }

  // ---------------------------------------------------------------- joining

  function Join(parts: seq<string>, d: char): string {
    if parts == [] then []
    else if |parts| == 1 then parts[0]
    else parts[0] + [d] + Join(parts[1..], d)
  }

  /** A text that splitting gives back as it is. */
  predicate Piece(s: string, d: char) {
    s != [] && Trimmed(s) && d !in s
  }

  lemma PieceThenMore(s: string, d: char, rest: string)
    requires Piece(s, d)
    ensures Pieces(s, d) == [s] && Pieces(s + [d] + rest, d) == [s] + Pieces(rest, d)
  {
    TrimOfTrimmed(s);
    var t := s + [d] + rest;
    IndexIs(s, d, |s|);
    IndexIs(t, d, |s|);
    assert t[..|s|] == s && t[|s| + 1..] == rest;
  }

  lemma TwoPieces(a: string, d: char, b: string)
    requires Piece(a, d) && Piece(b, d) && !Space(d)
    ensures Pieces(a + [d] + b, d) == [a, b]
    ensures Pieces(a + [d] + (" " + b), d) == [a, b]
  {
    PieceThenMore(a, d, b);
    PieceThenMore(b, d, []);
    PieceThenMore(a, d, " " + b);
    BlankThenPiece(b, d);
    assert [a] + [b] == [a, b];
  }

  lemma BlankThenPiece(b: string, d: char)
    requires Piece(b, d) && !Space(d)
    ensures Pieces(" " + b, d) == [b]
  {
    var text := " " + b;
    IndexIs(text, d, |text|);
    TrimIs(text, 1, |text|);
    assert text[1..|text|] == b;
  }

  /** Splitting undoes joining. */
  lemma {:induction false} SplitUndoesJoin(parts: seq<string>, d: char)
    requires forall i :: 0 <= i < |parts| ==> Piece(parts[i], d)
    ensures Pieces(Join(parts, d), d) == parts
  {
    if parts != [] {
      var first, rest := parts[0], parts[1..];
      PieceThenMore(first, d, Join(rest, d));
      assert parts == [first] + rest;
      if rest == [] {
        assert Join(parts, d) == first;
      } else {
        SplitUndoesJoin(rest, d);
        assert Join(parts, d) == first + [d] + Join(rest, d);
      }
    }
  }
}
