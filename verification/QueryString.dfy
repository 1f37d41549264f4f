/**
  Parameters as an ordered multimap, their text form, and reading them back.
 */
module QueryString {
  import opened HttpText
  import opened Sequences
  import opened Splitting

  datatype Param = Param(key: string, value: string)

  /** The order of the map: byte by byte, a prefix first. */
  predicate Less(a: string, b: string) {
    if b == [] then false
    else if a == [] then true
    else a[0] < b[0] || (a[0] == b[0] && Less(a[1..], b[1..]))
  }

  predicate Sorted(params: seq<Param>) {
    forall i, j :: 0 <= i < j < |params| ==> !Less(params[j].key, params[i].key)
  }

  /** Insertion into the multimap: after every entry whose key is not greater. */
  function Emplace(params: seq<Param>, p: Param): (r: seq<Param>)
    ensures |r| == |params| + 1
  {
    if params == [] then [p]
    else
      var last := |params| - 1;
      if Less(p.key, params[last].key) then Emplace(params[..last], p) + [params[last]] else params + [p]
  }

  lemma {:induction false} LessIsTotal(a: string, b: string, c: string)
    ensures !Less(a, a)
    ensures Less(a, b) && Less(b, c) ==> Less(a, c)
    ensures !Less(a, b) && !Less(b, c) ==> !Less(a, c)
  {
    if a != [] && b != [] && c != [] {
      LessIsTotal(a[1..], b[1..], c[1..]);
    } else if a != [] {
      LessIsTotal(a[1..], [], []);
    }
  }

  lemma SortedWithLast(params: seq<Param>, p: Param)
    requires Sorted(params) && forall i :: 0 <= i < |params| ==> !Less(p.key, params[i].key)
    ensures Sorted(params + [p])
  {
  }

  /** Insertion keeps the order and adds exactly the new entry. */
  lemma {:induction false} EmplaceKeepsSorted(params: seq<Param>, p: Param)
    requires Sorted(params)
    ensures Sorted(Emplace(params, p)) && multiset(Emplace(params, p)) == multiset(params) + multiset{p}
    ensures forall q :: q in Emplace(params, p) ==> q in params || q == p
  {
    if params != [] {
      var last := |params| - 1;
      assert params == params[..last] + [params[last]];
      if Less(p.key, params[last].key) {
        EmplaceKeepsSorted(params[..last], p);
        var r := Emplace(params[..last], p);
        forall i | 0 <= i < |r|
          ensures !Less(params[last].key, r[i].key)
        {
          assert r[i] in r;
          LessIsTotal(params[last].key, p.key, params[last].key);
        }
        SortedWithLast(r, params[last]);
      } else {
        forall i | 0 <= i < |params|
          ensures !Less(p.key, params[i].key)
        {
          LessIsTotal(p.key, params[last].key, params[i].key);
        }
        SortedWithLast(params, p);
      }
    }
  }

  // ---------------------------------------------------------------- reading

  /** The first part names the key, the last further part the value. */
  function PairOf(parts: seq<string>): Param
    requires parts != []
  {
    Param(parts[0], if |parts| == 1 then [] else parts[|parts| - 1])
  }

  /** Each `key=value` text once, in the order of their first appearance, inserted as converted. */
  function AddPairs(texts: seq<string>, seen: set<string>, convert: string -> string, params: seq<Param>): seq<Param> {
    if texts == [] then params
    else if texts[0] in seen then AddPairs(texts[1..], seen, convert, params)
    else
      var parts := Pieces(texts[0], '=');
      AddPairs(texts[1..], seen + {texts[0]}, convert,
               if parts == [] then params
               else Emplace(params, Param(convert(PairOf(parts).key), convert(PairOf(parts).value))))
  }

  ghost predicate Reads(text: string, convert: string -> string, p: Param) {
    var parts := Pieces(text, '=');
    parts != [] && convert(PairOf(parts).key) == p.key && convert(PairOf(parts).value) == p.value
  }

  lemma AddsOne(text: string, more: seq<string>, seen: set<string>, convert: string -> string, params: seq<Param>,
                p: Param)
    requires Reads(text, convert, p) && text !in seen
    ensures AddPairs([text] + more, seen, convert, params) == AddPairs(more, seen + {text}, convert, Emplace(params, p))
  {
    assert ([text] + more)[1..] == more;
  }

  method ReadPair(text: string) returns (key: string, value: string)
    ensures var parts := Pieces(text, '=');
            if parts == [] then key == [] else key != [] && Param(key, value) == PairOf(parts)
  {
    key, value := [], [];
    var parts := Split(text, '=');
    PiecesAreKept(text, '=');
    for i := 0 to |parts|
      invariant i == 0 ==> key == [] && value == []
      invariant i > 0 ==> key == parts[0] && value == if i == 1 then [] else parts[i - 1]
    {
      if key == [] {
        key := parts[i];
      } else {
        value := parts[i];
      }
    }
  }

  lemma {:induction false} PiecesAreKept(s: string, d: char)
    ensures forall i :: 0 <= i < |Pieces(s, d)| ==> Pieces(s, d)[i] != []
    decreases |s|
  {
    var k := IndexOf(s, d);
    if k < |s| {
      PiecesAreKept(s[k + 1..], d);
    }
  }

  function DecodeText(text: string): string {
    Decode(text, true)
  }

  /** The parameters of a query text added to a map. */
  function ParseQuery(s: string, params: seq<Param>): seq<Param> {
    AddPairs(Pieces(s, '&'), {}, DecodeText, params)
  }

  method ParseQueryText(s: string, params0: seq<Param>) returns (params: seq<Param>)
    ensures params == ParseQuery(s, params0)
  {
    params := params0;
    var cache: set<string> := {};
    var texts := Split(s, '&');
    assert texts[0..] == texts;
    for i := 0 to |texts|
      invariant AddPairs(texts[i..], cache, DecodeText, params) == AddPairs(texts, {}, DecodeText, params0)
    {
      assert texts[i..][1..] == texts[i + 1..];
      if texts[i] !in cache {
        cache := cache + {texts[i]};
        var key, value := ReadPair(texts[i]);
        if key != [] {
          var k := DecodeUrl(key, true);
          var v := DecodeUrl(value, true);
          params := Emplace(params, Param(k, v));
        }
      }
    }
  }

  // ---------------------------------------------------------------- writing

  function PairText(p: Param): string
    requires IsByteString(p.value)
  {
    p.key + "=" + Encode(p.value)
  }

  predicate Writable(params: seq<Param>) {
    forall i :: 0 <= i < |params| ==> IsByteString(params[i].value)
  }

  function PairTexts(params: seq<Param>): (r: seq<string>)
    requires Writable(params)
    ensures |r| == |params| && forall i :: 0 <= i < |r| ==> r[i] == PairText(params[i])
  {
    if params == [] then [] else [PairText(params[0])] + PairTexts(params[1..])
  }

  function QueryText(params: seq<Param>): string
    requires Writable(params)
  {
    Join(PairTexts(params), '&')
  }

  lemma {:induction false} JoinOneMore(parts: seq<string>, last: string, d: char)
    ensures Join(parts + [last], d) == if parts == [] then last else Join(parts, d) + [d] + last
  {
    if parts == [] {
      assert parts + [last] == [last];
    } else {
      var first, rest := parts[0], parts[1..];
      JoinOneMore(rest, last, d);
      HeadAndTail(parts);
      Associate([first], rest, [last]);
      JoinFirst(first, rest + [last], d);
      if rest == [] {
        assert Join(parts, d) == first;
      } else {
        JoinFirst(first, rest, d);
        Regroup(first, Join(rest, d), last, d);
      }
    }
  }

  lemma JoinFirst(first: string, rest: seq<string>, d: char)
    requires rest != []
    ensures Join([first] + rest, d) == first + [d] + Join(rest, d)
  {
    assert ([first] + rest)[1..] == rest;
  }

  lemma Regroup(first: string, rest: string, last: string, d: char)
    ensures first + [d] + (rest + [d] + last) == (first + [d] + rest) + [d] + last
  {
  }

  lemma JoinToIndex(parts: seq<string>, i: nat, d: char)
    requires i < |parts|
    ensures Join(parts[..i + 1], d) == (if i == 0 then [] else Join(parts[..i], d) + [d]) + parts[i]
  {
    JoinOneMore(parts[..i], parts[i], d);
    assert parts[..i + 1] == parts[..i] + [parts[i]];
    assert [] + parts[i] == parts[i];
  }

  method ParamsToQueryStr(params: seq<Param>) returns (query: string)
    requires Writable(params)
    ensures query == QueryText(params)
  {
    query := [];
    ghost var texts := PairTexts(params);
    for i := 0 to |params|
      invariant query == Join(texts[..i], '&')
    {
      query := AddPair(query, params[i], i, texts);
    }
    assert texts[..|params|] == texts;
  }

  method AddPair(query0: string, p: Param, i: nat, ghost texts: seq<string>) returns (query: string)
    requires IsByteString(p.value) && i < |texts| && texts[i] == PairText(p) && query0 == Join(texts[..i], '&')
    ensures query == Join(texts[..i + 1], '&')
  {
    query := query0;
    JoinToIndex(texts, i, '&');
    if i > 0 {
      query := query + "&";
    }
    var value := EncodeQueryParam(p.value);
    query := query + (p.key + "=" + value);
  }

  // ---------------------------------------------------------------- the round trip

  /** A key that is read as it is written: not empty, without blanks at its ends, free of delimiters, and standing
      for itself. */
  predicate CleanKey(key: string) {
    Piece(key, '=') && '&' !in key && DecodeText(key) == key
  }

  predicate CleanKeys(params: seq<Param>) {
    forall i :: 0 <= i < |params| ==> CleanKey(params[i].key)
  }

  /** Keys of unreserved characters are. */
  lemma UnreservedIsClean(key: string)
    requires key != [] && forall i :: 0 <= i < |key| ==> Unreserved(key[i])
    ensures CleanKey(key)
  {
    UnreservedIsPlain(key, true);
  }

  /** The entries in order, each pair only where it first appears. */
  function Distinct(params: seq<Param>, seen: set<Param>): seq<Param> {
    if params == [] then []
    else if params[0] in seen then Distinct(params[1..], seen)
    else [params[0]] + Distinct(params[1..], seen + {params[0]})
  }

  lemma ValueIsPiece(value: string)
    requires IsByteString(value) && value != []
    ensures Piece(Encode(value), '=')
  {
    EncodedIsTrimmed(value, Encode(value));
  }

  /** One written pair reads back. */
  lemma PairReadsBack(p: Param)
    requires CleanKey(p.key) && IsByteString(p.value)
    ensures Reads(PairText(p), DecodeText, p)
  {
    assert PairText(p) == p.key + ['='] + Encode(p.value);
    PieceThenMore(p.key, '=', Encode(p.value));
    if p.value == [] {
      assert Pieces([], '=') == [];
    } else {
      ValueIsPiece(p.value);
      DecodeUndoesEncode(p.value, true);
      PieceThenMore(Encode(p.value), '=', []);
    }
  }

  lemma JoinedIsPiece(key: string, value: string, text: string)
    requires text == key + "=" + value && key != [] && !Space(key[0]) && (value != [] ==> !Space(value[|value| - 1]))
    requires '&' !in key && '&' !in value
    ensures Piece(text, '&')
  {
    assert text[0] == key[0];
    assert text[|text| - 1] == if value == [] then '=' else value[|value| - 1];
  }

  lemma EncodedIsTrimmed(value: string, text: string)
    requires IsByteString(value) && text == Encode(value)
    ensures '=' !in text && '&' !in text && Trimmed(text) && (text == [] <==> value == [])
  {
    EncodedCharacters(value);
  }

  lemma PairTextIsPiece(p: Param)
    requires CleanKey(p.key) && IsByteString(p.value)
    ensures Piece(PairText(p), '&')
  {
    EncodedIsTrimmed(p.value, Encode(p.value));
    JoinedIsPiece(p.key, Encode(p.value), PairText(p));
  }

  lemma EmplaceAtEnd(done: seq<Param>, p: Param)
    requires forall i :: 0 <= i < |done| ==> !Less(p.key, done[i].key)
    ensures Emplace(done, p) == done + [p]
  {
  }

  lemma OnePairRead(p: Param, more: seq<string>, texts: set<string>, done: seq<Param>)
    requires CleanKey(p.key) && IsByteString(p.value)
    requires forall i :: 0 <= i < |done| ==> !Less(p.key, done[i].key)
    ensures AddPairs([PairText(p)] + more, texts, DecodeText, done)
            == if PairText(p) in texts then AddPairs(more, texts, DecodeText, done)
               else AddPairs(more, texts + {PairText(p)}, DecodeText, done + [p])
  {
    PairReadsBack(p);
    EmplaceAtEnd(done, p);
    if PairText(p) in texts {
      assert ([PairText(p)] + more)[1..] == more;
    } else {
      AddsOne(PairText(p), more, texts, DecodeText, done, p);
    }
  }

  /** The texts met so far are those of the pairs met so far. */
  ghost predicate SameSeen(params: seq<Param>, texts: set<string>, seen: set<Param>)
    requires Writable(params)
  {
    forall i :: 0 <= i < |params| ==> (PairText(params[i]) in texts <==> params[i] in seen)
  }

  lemma SameSeenAfter(params: seq<Param>, texts: set<string>, seen: set<Param>)
    requires params != [] && Writable(params) && CleanKeys(params) && SameSeen(params, texts, seen)
    ensures SameSeen(params[1..], texts, seen)
    ensures SameSeen(params[1..], texts + {PairText(params[0])}, seen + {params[0]})
  {
    PairReadsBack(params[0]);
    forall i | 0 <= i < |params[1..]|
      ensures PairText(params[1..][i]) == PairText(params[0]) <==> params[1..][i] == params[0]
    {
      PairReadsBack(params[1..][i]);
    }
  }

  ghost predicate AllFollow(done: seq<Param>, params: seq<Param>) {
    forall i, j :: 0 <= i < |done| && 0 <= j < |params| ==> !Less(params[j].key, done[i].key)
  }

  lemma AllFollowAfter(done: seq<Param>, params: seq<Param>)
    requires params != [] && Sorted(params) && AllFollow(done, params)
    ensures Sorted(params[1..]) && AllFollow(done, params[1..]) && AllFollow(done + [params[0]], params[1..])
  {
  }

  /** Reading the written pairs, in order, adds those that were not seen before. */
  lemma {:induction false} PairsReadBack(params: seq<Param>, done: seq<Param>, texts: set<string>, seen: set<Param>)
    requires Writable(params) && CleanKeys(params) && Sorted(params)
    requires AllFollow(done, params) && SameSeen(params, texts, seen)
    ensures AddPairs(PairTexts(params), texts, DecodeText, done) == done + Distinct(params, seen)
  {
    if params == [] {
      assert done + [] == done;
    } else {
      var p, rest := params[0], params[1..];
      assert PairText(p) in texts <==> p in seen;
      OnePairRead(p, PairTexts(rest), texts, done);
      SameSeenAfter(params, texts, seen);
      AllFollowAfter(done, params);
      if p in seen {
        PairsReadBack(rest, done, texts, seen);
      } else {
        PairsReadBack(rest, done + [p], texts + {PairText(p)}, seen + {p});
        Associate(done, [p], Distinct(rest, seen + {p}));
      }
    }
  }

  /** The query text of an ordered map of clean keys and any byte values reads back as the map with each
      pair once. */
  lemma QueryReadsBack(params: seq<Param>)
    requires Writable(params) && CleanKeys(params) && Sorted(params)
    ensures ParseQuery(QueryText(params), []) == Distinct(params, {})
  {
    var texts := PairTexts(params);
    forall i | 0 <= i < |texts|
      ensures Piece(texts[i], '&')
    {
      PairTextIsPiece(params[i]);
    }
    SplitUndoesJoin(texts, '&');
    PairsReadBack(params, [], {}, {});
  }

  predicate NoRepeats(params: seq<Param>) {
    forall i, j :: 0 <= i < j < |params| ==> params[i] != params[j]
  }

  lemma {:induction false} DistinctKeepsAll(params: seq<Param>, seen: set<Param>)
    ensures |Distinct(params, seen)| <= |params|
    ensures Distinct(params, seen) == params
            <==> NoRepeats(params) && forall i :: 0 <= i < |params| ==> params[i] !in seen
  {
    if params != [] {
      var p, rest := params[0], params[1..];
      DistinctKeepsAll(rest, seen);
      DistinctKeepsAll(rest, seen + {p});
      assert params == [p] + rest;
      if NoRepeats(params) {
        forall i | 0 <= i < |rest|
          ensures rest[i] != p
        {
          assert params[i + 1] == rest[i];
        }
      }
    }
  }
}
