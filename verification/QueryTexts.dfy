/**
  What splitting means for every text, and with it the pairs of a query and of a disposition.
 */
module QueryTexts {
  import opened CaseBlind
  import opened PartHeaders
  import opened QueryString
  import opened Sequences
  import opened Splitting
  import QueryKeys

  /** A text between delimiters: blanks, what is kept of it, and blanks. */
  datatype Field = Field(before: string, kept: string, after: string)

  predicate IsField(f: Field, d: char) {
    Blanks(f.before) && Blanks(f.after) && Trimmed(f.kept) && d !in f.before + f.kept + f.after
  }

  predicate AreFields(fields: seq<Field>, d: char) {
    forall i :: 0 <= i < |fields| ==> IsField(fields[i], d)
  }

  function TextsOf(fields: seq<Field>): seq<string> {
    if fields == [] then []
    else [fields[0].before + fields[0].kept + fields[0].after] + TextsOf(fields[1..])
  }

  /** What is kept, where that is something. */
  function KeptOf(fields: seq<Field>): seq<string> {
    if fields == [] then []
    else (if fields[0].kept == [] then [] else [fields[0].kept]) + KeptOf(fields[1..])
  }

  lemma KeptIs(f: Field, d: char)
    requires IsField(f, d)
    ensures Kept(f.before + f.kept + f.after) == if f.kept == [] then [] else [f.kept]
  {
    if f.kept == [] {
      var t := f.before + f.kept + f.after;
      assert Blanks(t);
      TrimIs(t, |t|, 0);
    } else {
      TrimmedOf(f.before, f.kept, f.after);
    }
  }

  lemma FirstField(f: Field, rest: seq<Field>, d: char)
    requires IsField(f, d) && rest != []
    ensures Pieces(Join(TextsOf([f] + rest), d), d)
            == (if f.kept == [] then [] else [f.kept]) + Pieces(Join(TextsOf(rest), d), d)
  {
    var t := f.before + f.kept + f.after;
    KeptIs(f, d);
    assert ([f] + rest)[1..] == rest;
    JoinFirst(t, TextsOf(rest), d);
    QueryKeys.PieceAtFirst(t, d, Join(TextsOf(rest), d));
  }

  /** Splitting gives what is kept of the texts between the delimiters. */
  lemma {:induction false} SplitMeans(fields: seq<Field>, d: char)
    requires AreFields(fields, d)
    ensures Pieces(Join(TextsOf(fields), d), d) == KeptOf(fields)
  {
    if |fields| == 0 {
      assert Pieces([], d) == [];
    } else if |fields| == 1 {
      var f := fields[0];
      var t := f.before + f.kept + f.after;
      assert TextsOf(fields) == [t];
      KeptIs(f, d);
      QueryKeys.NoDelimiter(t, d);
      assert KeptOf(fields[1..]) == [];
    } else {
      HeadAndTail(fields);
      FirstField(fields[0], fields[1..], d);
      SplitMeans(fields[1..], d);
    }
  }

  lemma FieldOfText(t: string, d: char) returns (f: Field)
    requires d !in t
    ensures IsField(f, d) && t == f.before + f.kept + f.after
  {
    var s, after := BlanksAfter(t);
    var before, kept := BlanksBefore(s);
    f := Field(before, kept, after);
    if kept != [] {
      assert kept[|kept| - 1] == s[|s| - 1];
    }
  }

  /** Every text is fields and delimiters, so that `SplitMeans` speaks of all of them. */
  lemma {:induction false} EveryText(t: string, d: char) returns (fields: seq<Field>)
    ensures AreFields(fields, d) && fields != [] && Join(TextsOf(fields), d) == t
    decreases |t|
  {
    if d !in t {
      var f := FieldOfText(t, d);
      fields := [f];
      assert TextsOf(fields) == [t];
    } else {
      var a, b := QueryKeys.FirstCut(t, d);
      var f := FieldOfText(a, d);
      var rest := EveryText(b, d);
      fields := [f] + rest;
      assert fields[1..] == rest;
      JoinFirst(a, TextsOf(rest), d);
    }
  }

  /** Of a text with equals signs, the first thing kept is the key and the last further one the value. */
  lemma PairMeans(fields: seq<Field>, convert: string -> string)
    requires AreFields(fields, '=') && KeptOf(fields) != []
    ensures var kept := KeptOf(fields);
            Reads(Join(TextsOf(fields), '='), convert,
                  Param(convert(kept[0]), convert(if |kept| == 1 then [] else kept[|kept| - 1])))
  {
    SplitMeans(fields, '=');
  }

  /** The order of keys: a proper prefix first, and otherwise the first byte that differs decides. */
  lemma {:induction false} LessExactly(a: string, b: string)
    ensures Less(a, b) <==> (|a| < |b| && a <= b)
                            || exists k: nat :: k < |a| && k < |b| && a[..k] == b[..k] && a[k] < b[k]
  {
    if a != [] && b != [] {
      var p, q := a[1..], b[1..];
      LessExactly(p, q);
      if a[0] == b[0] {
        assert a <= b <==> p <= q;
        SameStart(a, b);
      } else {
        assert a[..0] == b[..0];
        assert forall k: nat :: 0 < k < |a| && k < |b| ==> a[..k][0] == a[0] && b[..k][0] == b[0];
      }
    }
  }

  lemma SameStart(a: string, b: string)
    requires a != [] && b != [] && a[0] == b[0]
    ensures (exists k: nat :: k < |a| && k < |b| && a[..k] == b[..k] && a[k] < b[k])
            <==> exists k: nat :: k < |a[1..]| && k < |b[1..]| && a[1..][..k] == b[1..][..k] && a[1..][k] < b[1..][k]
  {
    if k: nat :| k < |a| && k < |b| && a[..k] == b[..k] && a[k] < b[k] {
      assert k > 0;
      assert a[1..][..k - 1] == a[..k][1..] && b[1..][..k - 1] == b[..k][1..];
      assert a[1..][k - 1] == a[k] && b[1..][k - 1] == b[k];
    }
    if k: nat :| k < |a[1..]| && k < |b[1..]| && a[1..][..k] == b[1..][..k] && a[1..][k] < b[1..][k] {
      assert a[..k + 1] == [a[0]] + a[1..][..k] && b[..k + 1] == [b[0]] + b[1..][..k];
      assert a[k + 1] == a[1..][k] && b[k + 1] == b[1..][k];
    }
  }
}
