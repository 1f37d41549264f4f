/**
  Exactly which maps of parameters survive being written as a query text and read back.
 */
module QueryKeys {
  import opened HttpText
  import opened QueryString
  import opened Sequences
  import opened Splitting

  // ---------------------------------------------------------------- a weight that reading never adds to

  /** Two for each character, and one more for a plus, which reading takes for a space. */
  function Weight(s: string): nat {
    if s == [] then 0 else (if s[0] == '+' then 3 else 2) + Weight(s[1..])
  }

  lemma {:induction false} WeightOfTwo(a: string, b: string)
    ensures Weight(a + b) == Weight(a) + Weight(b)
  {
    if a == [] {
      assert a + b == b;
    } else {
      assert (a + b)[1..] == a[1..] + b;
      WeightOfTwo(a[1..], b);
    }
  }

  lemma {:induction false} WeightBounds(s: string)
    ensures 2 * |s| <= Weight(s) <= 3 * |s|
    ensures '+' !in s ==> Weight(s) == 2 * |s|
  {
    if s != [] {
      WeightBounds(s[1..]);
    }
  }

  lemma OneDecodedWeight(s: string)
    requires s != []
    ensures var (text, used) := DecodeOne(s, true);
            Weight(text) <= Weight(s[..used]) && (Weight(text) == Weight(s[..used]) ==> text == s[..used])
  {
    var (text, used) := DecodeOne(s, true);
    WeightBounds(text);
    WeightBounds(s[..used]);
    if used == 1 {
      assert s[..1] == [s[0]] && [s[0]][1..] == [];
      assert text[1..] == [];
    }
  }

  /** Decoding adds no weight, and takes none away only from text that stands for itself. */
  lemma {:induction false} DecodedWeight(s: string)
    ensures Weight(DecodeText(s)) <= Weight(s)
    ensures Weight(DecodeText(s)) == Weight(s) ==> DecodeText(s) == s
    decreases |s|
  {
    if s != [] {
      var (text, used) := DecodeOne(s, true);
      OneDecodedWeight(s);
      DecodedWeight(s[used..]);
      WeightOfTwo(text, DecodeText(s[used..]));
      WeightOfTwo(s[..used], s[used..]);
      assert s == s[..used] + s[used..];
    }
  }

  lemma {:induction false} TrimStartWeight(s: string)
    ensures Weight(TrimStart(s)) <= Weight(s)
    ensures Weight(TrimStart(s)) == Weight(s) ==> TrimStart(s) == s
  {
    if s != [] && Space(s[0]) {
      TrimStartWeight(s[1..]);
    }
  }

  lemma {:induction false} TrimEndWeight(s: string)
    ensures Weight(TrimEnd(s)) <= Weight(s)
    ensures Weight(TrimEnd(s)) == Weight(s) ==> TrimEnd(s) == s
  {
    if s != [] && Space(s[|s| - 1]) {
      var init, last := s[..|s| - 1], s[|s| - 1..];
      TrimEndWeight(init);
      assert s == init + last;
      WeightOfTwo(init, last);
      WeightBounds(last);
    }
  }

  lemma TrimWeight(s: string)
    ensures Weight(Trim(s)) <= Weight(s)
    ensures Weight(Trim(s)) == Weight(s) ==> Trim(s) == s
  {
    TrimStartWeight(s);
    TrimEndWeight(TrimStart(s));
  }

  lemma {:induction false} TrimStartEnds(s: string)
    ensures TrimStart(s) != [] ==> !Space(TrimStart(s)[0])
  {
    if s != [] && Space(s[0]) {
      TrimStartEnds(s[1..]);
    }
  }

  lemma {:induction false} TrimEndEnds(s: string)
    ensures var r := TrimEnd(s); r != [] ==> !Space(r[|r| - 1]) && r[0] == s[0]
  {
    if s != [] && Space(s[|s| - 1]) {
      TrimEndEnds(s[..|s| - 1]);
    }
  }

  lemma TrimIsTrimmed(s: string)
    ensures Trimmed(Trim(s))
  {
    TrimStartEnds(s);
    TrimEndEnds(TrimStart(s));
  }

  // ---------------------------------------------------------------- pieces

  /** The first piece, and the last one if there are more, weigh no more than the text. */
  ghost predicate PiecesWeigh(pieces: seq<string>, s: string, d: char) {
    pieces != [] ==>
      pieces[0] != [] && Weight(pieces[0]) <= Weight(s) && (Weight(pieces[0]) == Weight(s) ==> Piece(s, d))
      && Weight(pieces[|pieces| - 1]) <= Weight(s)
      && (Weight(pieces[0]) == Weight(s) ==> pieces[0] == s)
      && (|pieces| > 1 ==> Weight(pieces[0]) + Weight(pieces[|pieces| - 1]) + 2 <= Weight(s))
  }

  lemma KeptWeighs(s: string, d: char)
    requires d !in s
    ensures PiecesWeigh(Kept(s), s, d)
  {
    TrimWeight(s);
    TrimIsTrimmed(s);
  }

  lemma CutWeighs(a: string, b: string, d: char, first: seq<string>, rest: seq<string>)
    requires |first| <= 1 && PiecesWeigh(first, a, d) && PiecesWeigh(rest, b, d)
    ensures PiecesWeigh(first + rest, a + [d] + b, d)
  {
    WeightOfTwo(a + [d], b);
    WeightOfTwo(a, [d]);
    WeightBounds([d]);
    if rest == [] {
      assert first + rest == first;
    }
  }

  lemma NoDelimiter(s: string, d: char)
    requires d !in s
    ensures Pieces(s, d) == Kept(s)
  {
    IndexIs(s, d, |s|);
  }

  /** A text cut at its first delimiter. */
  lemma FirstCut(s: string, d: char) returns (a: string, b: string)
    requires d in s
    ensures s == a + [d] + b && d !in a && |b| < |s| && Pieces(s, d) == Kept(a) + Pieces(b, d)
  {
    var k := IndexOf(s, d);
    IndexIsFirst(s, d);
    IndexInside(s, d);
    a, b := s[..k], s[k + 1..];
  }

  lemma {:induction false} PiecesWeight(s: string, d: char)
    ensures PiecesWeigh(Pieces(s, d), s, d)
    decreases |s|
  {
    if d !in s {
      NoDelimiter(s, d);
      KeptWeighs(s, d);
    } else {
      var a, b := FirstCut(s, d);
      KeptWeighs(a, d);
      PiecesWeight(b, d);
      CutWeighs(a, b, d, Kept(a), Pieces(b, d));
    }
  }

  lemma PieceAtFirst(a: string, d: char, b: string)
    requires d !in a
    ensures Pieces(a + [d] + b, d) == Kept(a) + Pieces(b, d)
  {
    var t := a + [d] + b;
    IndexIs(t, d, |a|);
    assert t[..|a|] == a && t[|a| + 1..] == b;
  }

  lemma {:induction false} PiecesOfTwo(a: string, d: char, b: string)
    ensures Pieces(a + [d] + b, d) == Pieces(a, d) + Pieces(b, d)
    decreases |a|
  {
    if d !in a {
      NoDelimiter(a, d);
      PieceAtFirst(a, d, b);
    } else {
      var first, rest := FirstCut(a, d);
      PiecesOfTwo(rest, d, b);
      PieceAtFirst(first, d, rest + [d] + b);
      Regroup(first, rest, b, d);
      Associate(Kept(first), Pieces(rest, d), Pieces(b, d));
    }
  }

  // ---------------------------------------------------------------- what an entry costs

  function Cost(p: Param): nat {
    Weight(p.key) + Weight(p.value) + (if p.key == [] then 2 else 1)
  }

  /** What reading a text between two `&` adds. */
  function TextCost(text: string): nat {
    var parts := Pieces(text, '=');
    if parts == [] then 0 else Cost(Param(DecodeText(PairOf(parts).key), DecodeText(PairOf(parts).value)))
  }

  function TextsCost(texts: seq<string>): nat {
    if texts == [] then 0 else TextCost(texts[0]) + TextsCost(texts[1..])
  }

  lemma {:induction false} CostOfTwo(a: seq<string>, b: seq<string>)
    ensures TextsCost(a + b) == TextsCost(a) + TextsCost(b)
  {
    if a == [] {
      assert a + b == b;
    } else {
      assert (a + b)[1..] == a[1..] + b;
      CostOfTwo(a[1..], b);
    }
  }

  lemma KeyCost(key: string)
    requires key != []
    ensures Weight(DecodeText(key)) + (if DecodeText(key) == [] then 2 else 1) <= Weight(key) + 1
    ensures Weight(DecodeText(key)) + (if DecodeText(key) == [] then 2 else 1) == Weight(key) + 1 ==>
              DecodeText(key) == key
  {
    DecodedWeight(key);
    WeightBounds(key);
  }

  /** The cost of the entry that these parts make. */
  lemma PartsCost(parts: seq<string>, s: string)
    requires parts != [] && PiecesWeigh(parts, s, '=')
    ensures var p := Param(DecodeText(PairOf(parts).key), DecodeText(PairOf(parts).value));
            Cost(p) <= Weight(s) + 1 && (Cost(p) == Weight(s) + 1 ==> Piece(s, '=') && DecodeText(s) == s)
  {
    KeyCost(parts[0]);
    DecodedWeight(PairOf(parts).value);
  }

  lemma AnyTextCost(text: string)
    ensures TextCost(text) <= Weight(text) + 1
  {
    PiecesWeight(text, '=');
    if Pieces(text, '=') != [] {
      PartsCost(Pieces(text, '='), text);
    }
  }

  lemma KeptCost(s: string)
    ensures TextsCost(Kept(s)) <= Weight(s) + 1
  {
    TrimWeight(s);
    AnyTextCost(Trim(s));
    assert Kept(s) != [] ==> Kept(s)[1..] == [];
  }

  // ---------------------------------------------------------------- one pair

  /** The text of a pair costs no more than the pair, and less if the key is not clean. */
  ghost predicate Affords(p: Param, text: string) {
    TextsCost(Pieces(text, '&')) <= Cost(p) && (!CleanKey(p.key) ==> TextsCost(Pieces(text, '&')) < Cost(p))
  }

  lemma EncodedIsPiece(v: string, e: string)
    requires IsByteString(v) && e == Encode(v)
    ensures '=' !in e && '&' !in e && (e != [] ==> !Space(e[|e| - 1])) && (e == [] <==> v == [])
    ensures Pieces(e, '=') == (if e == [] then [] else [e]) && DecodeText(e) == v
  {
    EncodedIsTrimmed(v, e);
    DecodeUndoesEncode(v, true);
    NoDelimiter(e, '=');
    TrimOfTrimmed(e);
  }

  lemma {:induction false} TrimmedPair(k: string, e: string)
    requires e != [] ==> !Space(e[|e| - 1])
    ensures Trim(k + "=" + e) == TrimStart(k) + "=" + e
  {
    var t := k + "=" + e;
    if k != [] && Space(k[0]) {
      assert t[1..] == k[1..] + "=" + e;
      TrimmedPair(k[1..], e);
    } else {
      assert t[0] == if k == [] then '=' else k[0];
      assert t[|t| - 1] == if e == [] then '=' else e[|e| - 1];
    }
  }

  /** A key without `&`. */
  lemma PlainPairAffords(k: string, v: string, e: string)
    requires IsByteString(v) && e == Encode(v) && '&' !in k
    ensures Affords(Param(k, v), k + "=" + e)
  {
    var text, start := k + "=" + e, TrimStart(k);
    var parts := Pieces(start, '=');
    EncodedIsPiece(v, e);
    TrimmedPair(k, e);
    PiecesOfTwo(start, '=', e);
    OnlyPiece(text, Trim(text));
    TrimStartWeight(k);
    WeightBounds(k);
    PiecesWeight(start, '=');
    PlainPairCost(k, v, e, start, parts);
  }

  lemma OnlyPiece(text: string, trimmed: string)
    requires '&' !in text && trimmed == Trim(text) && trimmed != []
    ensures TextsCost(Pieces(text, '&')) == TextCost(trimmed)
  {
    NoDelimiter(text, '&');
    assert [trimmed][1..] == [];
    assert TextsCost([trimmed]) == TextCost(trimmed);
  }

  /** What the trimmed text of such a pair costs. */
  lemma PlainPairCost(k: string, v: string, e: string, start: string, parts: seq<string>)
    requires '&' !in k && DecodeText(e) == v && (e == [] <==> v == []) && PiecesWeigh(parts, start, '=')
    requires Weight(start) <= Weight(k) && (Weight(start) == Weight(k) ==> start == k) && 2 * |k| <= Weight(k)
    requires Pieces(start + "=" + e, '=') == parts + if e == [] then [] else [e]
    ensures TextCost(start + "=" + e) <= Cost(Param(k, v))
    ensures !CleanKey(k) ==> TextCost(start + "=" + e) < Cost(Param(k, v))
  {
    if e == [] {
      assert parts + [] == parts;
      if parts != [] {
        PartsCost(parts, start);
      }
    } else if parts == [] {
      assert [] + [e] == [e];
    } else {
      var all := parts + [e];
      assert all[0] == parts[0] && all[|all| - 1] == e;
      KeyCost(parts[0]);
    }
  }

  lemma {:induction false} PairAffords(k: string, v: string, e: string)
    requires IsByteString(v) && e == Encode(v)
    ensures Affords(Param(k, v), k + "=" + e)
    decreases |k|
  {
    if '&' !in k {
      PlainPairAffords(k, v, e);
    } else {
      var a, rest := FirstCut(k, '&');
      PairAffords(rest, v, e);
      CutPairAffords(k, a, rest, v, rest + "=" + e);
      RegroupPair(a, rest, e);
    }
  }

  lemma RegroupPair(a: string, rest: string, e: string)
    ensures (a + ['&'] + rest) + "=" + e == a + ['&'] + (rest + "=" + e)
  {
  }

  lemma CutPairAffords(k: string, a: string, rest: string, v: string, text: string)
    requires k == a + ['&'] + rest && '&' !in a && Affords(Param(rest, v), text)
    ensures Affords(Param(k, v), a + ['&'] + text)
  {
    PiecesOfTwo(a, '&', text);
    NoDelimiter(a, '&');
    CostOfTwo(Kept(a), Pieces(text, '&'));
    KeptCost(a);
    WeightOfTwo(a + ['&'], rest);
    WeightOfTwo(a, ['&']);
    WeightBounds(['&']);
  }

  // ---------------------------------------------------------------- the whole map

  function Total(params: seq<Param>): nat {
    if params == [] then 0 else Total(params[..|params| - 1]) + Cost(params[|params| - 1])
  }

  lemma TotalOneMore(params: seq<Param>, p: Param)
    ensures Total(params + [p]) == Total(params) + Cost(p)
  {
    assert (params + [p])[..|params|] == params;
  }

  lemma {:induction false} TotalFromFirst(p: Param, params: seq<Param>)
    ensures Total([p] + params) == Cost(p) + Total(params)
  {
    if params == [] {
      assert [p] + params == [] + [p];
      TotalOneMore([], p);
    } else {
      var init, last := params[..|params| - 1], params[|params| - 1];
      TotalFromFirst(p, init);
      assert [p] + params == ([p] + init) + [last] && params == init + [last];
      TotalOneMore([p] + init, last);
    }
  }

  lemma {:induction false} EmplaceTotal(params: seq<Param>, p: Param)
    ensures Total(Emplace(params, p)) == Total(params) + Cost(p)
  {
    if params == [] {
      assert [p] == [] + [p];
      TotalOneMore([], p);
    } else {
      var last := |params| - 1;
      if Less(p.key, params[last].key) {
        EmplaceTotal(params[..last], p);
        TotalOneMore(Emplace(params[..last], p), params[last]);
      } else {
        TotalOneMore(params, p);
      }
    }
  }

  /** Reading adds no more than its texts cost, and keeps the order. */
  lemma {:induction false} AddedCost(texts: seq<string>, seen: set<string>, params: seq<Param>)
    requires Sorted(params)
    ensures var r := AddPairs(texts, seen, DecodeText, params);
            Total(r) <= Total(params) + TextsCost(texts) && Sorted(r)
  {
    if texts != [] {
      if texts[0] in seen {
        AddedCost(texts[1..], seen, params);
      } else {
        var parts := Pieces(texts[0], '=');
        if parts == [] {
          AddedCost(texts[1..], seen + {texts[0]}, params);
        } else {
          var p := Param(DecodeText(PairOf(parts).key), DecodeText(PairOf(parts).value));
          EmplaceTotal(params, p);
          EmplaceKeepsSorted(params, p);
          AddedCost(texts[1..], seen + {texts[0]}, Emplace(params, p));
        }
      }
    }
  }

  /** The whole query text costs no more than the map, and less if a key is not clean. */
  lemma {:induction false} QueryCost(params: seq<Param>)
    requires Writable(params)
    ensures TextsCost(Pieces(QueryText(params), '&')) <= Total(params)
    ensures !CleanKeys(params) ==> TextsCost(Pieces(QueryText(params), '&')) < Total(params)
  {
    if params != [] {
      var p, rest := params[0], params[1..];
      QueryCost(rest);
      PairAffords(p.key, p.value, Encode(p.value));
      assert params == [p] + rest;
      TotalFromFirst(p, rest);
      CleanFromFirst(params);
      if rest != [] {
        assert QueryText(params) == PairText(p) + ['&'] + QueryText(rest);
        PiecesOfTwo(PairText(p), '&', QueryText(rest));
        CostOfTwo(Pieces(PairText(p), '&'), Pieces(QueryText(rest), '&'));
      }
    }
  }

  lemma CleanFromFirst(params: seq<Param>)
    requires params != []
    ensures CleanKeys(params) <==> CleanKey(params[0].key) && CleanKeys(params[1..])
  {
    if CleanKey(params[0].key) && CleanKeys(params[1..]) {
      forall i | 0 <= i < |params|
        ensures CleanKey(params[i].key)
      {
        assert i > 0 ==> params[i] == params[1..][i - 1];
      }
    }
  }

  /** The round trip gives the same map back exactly when the map is in its order, holds no pair twice, and all its
      keys are clean; the values may be any bytes. */
  lemma QueryRoundTrip(params: seq<Param>)
    requires Writable(params)
    ensures ParseQuery(QueryText(params), []) == params
            <==> Sorted(params) && NoRepeats(params) && CleanKeys(params)
  {
    AddedCost(Pieces(QueryText(params), '&'), {}, []);
    QueryCost(params);
    if Sorted(params) && CleanKeys(params) {
      QueryReadsBack(params);
      DistinctKeepsAll(params, {});
    }
  }
}
