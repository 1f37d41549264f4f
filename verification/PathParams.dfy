/**
  Route patterns with named parameters: what a pattern means, how it is taken apart, and how paths are
  matched against the parts.
 */
module PathParams {
  import opened Sequences
  import opened Wrappers
  import Search

  const MARKER := ':'
  const SEPARATOR := '/'

  /** The static text between the parameters, and the parameter names. */
  datatype Parts = Parts(fragments: seq<string>, names: seq<string>)

  /** A pattern that has a parameter, cut at the first one. */
  datatype Cut = Cut(before: string, name: string, last: bool, rest: string)

  function FirstParam(pattern: string): (c: Cut)
    requires IndexOf(pattern, MARKER) < |pattern|
    ensures |c.rest| < |pattern|
  {
    var m := IndexOf(pattern, MARKER);
    var tail := pattern[m + 1..];
    var s := IndexOf(tail, SEPARATOR);
    if s == |tail| then Cut(pattern[..m], tail, true, []) else Cut(pattern[..m], tail[..s], false, tail[s + 1..])
  }

  predicate HasParam(pattern: string) {
    IndexOf(pattern, MARKER) < |pattern|
  }

  /** The parts of a pattern; the separator after a parameter belongs to none of them. */
  function PartsOf(pattern: string): (p: Parts)
    decreases |pattern|
  {
    if !HasParam(pattern) then Parts(if pattern == [] then [] else [pattern], [])
    else
      var c := FirstParam(pattern);
      var more := PartsOf(c.rest);
      Parts([c.before] + more.fragments, [c.name] + more.names)
  }

  function WithParam(before: string, name: string, more: Option<Parts>): Option<Parts> {
    match more
    case None => None
    case Some(parts) => Some(Parts([before] + parts.fragments, [name] + parts.names))
  }

  /** The parts as the constructor takes them, or None where it throws: a name that is in the set of names
      is refused.  The set is handed on as it is, since the source never puts a name into it. */
  function Built(pattern: string, seen: set<string>): Option<Parts>
    decreases |pattern|
  {
    if !HasParam(pattern) then Some(PartsOf(pattern))
    else
      var c := FirstParam(pattern);
      if c.name in seen then None else WithParam(c.before, c.name, Built(c.rest, seen))
  }

  /** The same with the set filled, as the check is meant. */
  function BuiltAsMeant(pattern: string, seen: set<string>): Option<Parts>
    decreases |pattern|
  {
    if !HasParam(pattern) then Some(PartsOf(pattern))
    else
      var c := FirstParam(pattern);
      if c.name in seen then None else WithParam(c.before, c.name, BuiltAsMeant(c.rest, seen + {c.name}))
  }

  predicate DistinctNames(names: seq<string>) {
    forall i, j :: 0 <= i < j < |names| ==> names[i] != names[j]
  }

  predicate NoneIn(names: seq<string>, seen: set<string>) {
    forall i :: 0 <= i < |names| ==> names[i] !in seen
  }

  lemma {:induction false} NothingIsRefused(pattern: string)
    ensures Built(pattern, {}) == Some(PartsOf(pattern))
    decreases |pattern|
  {
    if HasParam(pattern) {
      NothingIsRefused(FirstParam(pattern).rest);
    }
  }

  lemma DistinctWithFirst(name: string, names: seq<string>, seen: set<string>)
    ensures DistinctNames([name] + names) && NoneIn([name] + names, seen)
            <==> name !in seen && DistinctNames(names) && NoneIn(names, seen + {name})
  {
    var all := [name] + names;
    assert forall i :: 0 <= i < |names| ==> all[i + 1] == names[i];
    if DistinctNames(all) && NoneIn(all, seen) {
      assert all[0] !in seen;
    }
  }

  lemma {:induction false} MeantRefusesRepeats(pattern: string, seen: set<string>)
    ensures var names := PartsOf(pattern).names;
            BuiltAsMeant(pattern, seen)
            == if DistinctNames(names) && NoneIn(names, seen) then Some(PartsOf(pattern)) else None
    decreases |pattern|
  {
    if HasParam(pattern) {
      var c := FirstParam(pattern);
      MeantRefusesRepeats(c.rest, seen + {c.name});
      DistinctWithFirst(c.name, PartsOf(c.rest).names, seen);
    }
  }

  /** The check does what it is meant to exactly for the patterns on which it has nothing to do. */
  lemma CheckWorksExactly(pattern: string)
    ensures Built(pattern, {}) == BuiltAsMeant(pattern, {}) <==> DistinctNames(PartsOf(pattern).names)
  {
    NothingIsRefused(pattern);
    MeantRefusesRepeats(pattern, {});
  }

  // ---------------------------------------------------------------- what a pattern means

  /** The pattern with values in the place of its parameters. */
  function Substituted(pattern: string, values: seq<string>): string
    requires |values| == |PartsOf(pattern).names|
    decreases |pattern|
  {
    if !HasParam(pattern) then pattern
    else
      var c := FirstParam(pattern);
      c.before + values[0] + if c.last then [] else [SEPARATOR] + Substituted(c.rest, values[1..])
  }

  predicate EndsWithParam(pattern: string)
    decreases |pattern|
  {
    HasParam(pattern) && (FirstParam(pattern).last || EndsWithParam(FirstParam(pattern).rest))
  }

  predicate EndsWithParamAndSlash(pattern: string)
    decreases |pattern|
  {
    HasParam(pattern) && !FirstParam(pattern).last
    && (FirstParam(pattern).rest == [] || EndsWithParamAndSlash(FirstParam(pattern).rest))
  }

  predicate SlashFree(values: seq<string>) {
    forall i :: 0 <= i < |values| ==> SEPARATOR !in values[i]
  }

  /** The path is the substituted pattern, up to one slash after a parameter at the end. */
  predicate IsInstance(pattern: string, path: string, values: seq<string>) {
    && |values| == |PartsOf(pattern).names| && SlashFree(values)
    && (|| path == Substituted(pattern, values)
        || (EndsWithParam(pattern) && path == Substituted(pattern, values) + [SEPARATOR])
        || (EndsWithParamAndSlash(pattern) && path + [SEPARATOR] == Substituted(pattern, values)))
  }

  // ---------------------------------------------------------------- matching

  /** The comparison of C strings of equal length: it ends at a common terminator. */
  predicate SameCString(a: string, b: string)
    requires |a| == |b|
  {
    a == [] || (a[0] == b[0] && (a[0] == '\0' || SameCString(a[1..], b[1..])))
  }

  /** What is left of the path, if matching has not run past its end. */
  datatype Rest = Beyond | From(path: string)

  /** Whether the rest of the path matches the rest of the parts, and the values captured until then. */
  function Matched(fragments: seq<string>, names: seq<string>, rest: Rest): (bool, seq<string>) {
    if fragments == [] then (rest == Beyond || rest.path == [], [])
    else
      var f := fragments[0];
      if rest == Beyond || |f| > |rest.path| || !SameCString(rest.path[..|f|], f) then (false, [])
      else
        var after := rest.path[|f|..];
        if names == [] then Matched(fragments[1..], [], From(after))
        else
          var k := IndexOf(after, SEPARATOR);
          var (ok, values) := Matched(fragments[1..], names[1..],
                                      if k == |after| then Beyond else From(after[k + 1..]));
          (ok, [after[..k]] + values)
  }

  function MatchOf(pattern: string, path: string): (bool, seq<string>) {
    Matched(PartsOf(pattern).fragments, PartsOf(pattern).names, From(path))
  }

  /** The text has no terminator before its end, so a comparison reads all of it. */
  predicate Exact(f: string) {
    f == [] || '\0' !in f[..|f| - 1]
  }

  /** Each static text of the pattern is compared as a whole. */
  predicate AllExact(pattern: string)
    decreases |pattern|
  {
    if !HasParam(pattern) then Exact(pattern)
    else Exact(FirstParam(pattern).before) && AllExact(FirstParam(pattern).rest)
  }

  lemma {:induction false} SameAsItself(f: string)
    ensures SameCString(f, f)
  {
    if f != [] {
      SameAsItself(f[1..]);
    }
  }

  lemma ExactTail(f: string)
    requires f != []
    ensures Exact(f) <==> |f| == 1 || (f[0] != '\0' && Exact(f[1..]))
  {
    if |f| > 1 {
      assert f[..|f| - 1] == [f[0]] + f[1..][..|f| - 2];
    }
  }

  lemma {:induction false} SameCStringIsEquality(a: string, b: string)
    requires |a| == |b| && Exact(b)
    ensures SameCString(a, b) <==> a == b
  {
    if a != [] {
      ExactTail(b);
      if |b| > 1 {
        SameCStringIsEquality(a[1..], b[1..]);
      }
      assert a == [a[0]] + a[1..] && b == [b[0]] + b[1..];
    }
  }

  lemma ValueAtEnd(f: string, g: string, fragments: seq<string>, name: string, names: seq<string>, v: string)
    requires |g| == |f| && SameCString(g, f) && SEPARATOR !in v
    ensures Matched([f] + fragments, [name] + names, From(g + v))
            == (Matched(fragments, names, Beyond).0, [v] + Matched(fragments, names, Beyond).1)
  {
    assert ([f] + fragments)[1..] == fragments && ([name] + names)[1..] == names;
    assert (g + v)[..|f|] == g && (g + v)[|f|..] == v && v[..|v|] == v;
    IndexIs(v, SEPARATOR, |v|);
  }

  lemma ValueIsCutOut(g: string, v: string, p: string, path: string, after: string)
    requires path == g + v + [SEPARATOR] + p && after == v + [SEPARATOR] + p
    ensures path[..|g|] == g && path[|g|..] == after && after[..|v|] == v && after[|v| + 1..] == p
  {
  }

  lemma ValueThenMore(f: string, g: string, fragments: seq<string>, name: string, names: seq<string>, v: string,
                      p: string)
    requires |g| == |f| && SameCString(g, f) && SEPARATOR !in v
    ensures Matched([f] + fragments, [name] + names, From(g + v + [SEPARATOR] + p))
            == (Matched(fragments, names, From(p)).0, [v] + Matched(fragments, names, From(p)).1)
  {
    assert ([f] + fragments)[1..] == fragments && ([name] + names)[1..] == names;
    var after := v + [SEPARATOR] + p;
    ValueIsCutOut(g, v, p, g + v + [SEPARATOR] + p, after);
    IndexIs(after, SEPARATOR, |v|);
  }

  /** How a path that gets past the first static text begins. */
  lemma PathBegins(f: string, fragments: seq<string>, name: string, names: seq<string>, path: string)
    requires Exact(f) && Matched([f] + fragments, [name] + names, From(path)).0
    ensures |f| <= |path| && path[..|f|] == f
    ensures SEPARATOR !in path[|f|..][..IndexOf(path[|f|..], SEPARATOR)]
    ensures var after := path[|f|..];
      var k := IndexOf(after, SEPARATOR);
      if k == |after| then path == f + after else path == f + after[..k] + [SEPARATOR] + after[k + 1..]
  {
    SameCStringIsEquality(path[..|f|], f);
    var after := path[|f|..];
    var k := IndexOf(after, SEPARATOR);
    IndexIsFirst(after, SEPARATOR);
    CutTwice(path, |f|, k);
    assert k == |after| ==> after[..k] == after;
  }

  lemma CutTwice(path: string, n: nat, k: nat)
    requires n + k <= |path|
    ensures path == path[..n] + path[n..]
    ensures n + k < |path| ==> path == path[..n] + path[n..][..k] + [path[n..][k]] + path[n..][k + 1..]
  {
  }

  lemma NoPartsLeft(pattern: string)
    ensures PartsOf(pattern).fragments == [] <==> pattern == []
    ensures PartsOf([]) == Parts([], [])
  {
  }

  /** A path that gets past the first parameter, cut there. */
  datatype Passed = Whole(v: string) | Split(v: string, more: string)

  function Joined(f: string, p: Passed): string {
    match p
    case Whole(v) => f + v
    case Split(v, more) => f + v + [SEPARATOR] + more
  }

  lemma PassFirst(pattern: string, path: string) returns (p: Passed)
    requires HasParam(pattern) && Exact(FirstParam(pattern).before) && MatchOf(pattern, path).0
    ensures SEPARATOR !in p.v && path == Joined(FirstParam(pattern).before, p)
  {
    var c := FirstParam(pattern);
    var more := PartsOf(c.rest);
    PathBegins(c.before, more.fragments, c.name, more.names, path);
    var after := path[|c.before|..];
    var k := IndexOf(after, SEPARATOR);
    p := if k == |after| then Whole(after) else Split(after[..k], after[k + 1..]);
  }

  /** Without a parameter a path as long as the pattern is accepted if it compares equal. */
  lemma OnlyFragment(pattern: string, path: string)
    requires !HasParam(pattern) && |path| == |pattern| && SameCString(path, pattern)
    ensures MatchOf(pattern, path) == (true, [])
  {
    if pattern != [] {
      assert path[..|pattern|] == path && path[|pattern|..] == [] && [pattern][1..] == [];
      assert Matched([], [], From([])) == (true, []);
    }
  }

  lemma NoParam(pattern: string, path: string)
    requires !HasParam(pattern) && Exact(pattern)
    ensures MatchOf(pattern, path).0 <==> path == pattern
    ensures MatchOf(pattern, path).1 == []
  {
    if pattern != [] && |pattern| <= |path| {
      SameCStringIsEquality(path[..|pattern|], pattern);
      var after := path[|pattern|..];
      assert path == path[..|pattern|] + after;
      assert [pattern][1..] == [];
      assert Matched([], [], From(after)) == (after == [], []);
    }
  }

  lemma SlashFreeMore(v: string, values: seq<string>)
    ensures SlashFree([v] + values) <==> SEPARATOR !in v && SlashFree(values)
  {
    if SlashFree([v] + values) {
      assert ([v] + values)[0] == v;
      assert forall i :: 0 <= i < |values| ==> ([v] + values)[i + 1] == values[i];
    }
  }

  lemma SubstitutedAtFirst(pattern: string, v: string, values: seq<string>)
    requires HasParam(pattern) && |values| == |PartsOf(FirstParam(pattern).rest).names|
    ensures |PartsOf(pattern).names| == |[v] + values|
    ensures Substituted(pattern, [v] + values)
            == FirstParam(pattern).before + v
               + if FirstParam(pattern).last then []
                 else [SEPARATOR] + Substituted(FirstParam(pattern).rest, values)
  {
    assert ([v] + values)[1..] == values;
  }

  /** A path without a separator after the first value. */
  lemma WholeInstance(pattern: string, v: string)
    requires HasParam(pattern) && SEPARATOR !in v && FirstParam(pattern).rest == []
    ensures IsInstance(pattern, FirstParam(pattern).before + v, [v])
  {
    SubstitutedAtFirst(pattern, v, []);
    assert [v] + [] == [v];
    var path := FirstParam(pattern).before + v;
    assert path + [] == path;
    assert [SEPARATOR] + [] == [SEPARATOR];
  }

  /** A path with a separator after the first value. */
  lemma SplitInstance(pattern: string, v: string, rest: string, values: seq<string>)
    requires HasParam(pattern) && SEPARATOR !in v && IsInstance(FirstParam(pattern).rest, rest, values)
    ensures IsInstance(pattern, FirstParam(pattern).before + v + [SEPARATOR] + rest, [v] + values)
  {
    var c := FirstParam(pattern);
    SubstitutedAtFirst(pattern, v, values);
    SlashFreeMore(v, values);
    var sub := Substituted(c.rest, values);
    if c.last {
      assert c.before + v + [] == c.before + v;
      assert c.before + v + [SEPARATOR] + [] == c.before + v + [SEPARATOR];
    } else {
      Regroup(c.before + v, rest, sub);
    }
  }

  lemma Regroup(start: string, rest: string, sub: string)
    ensures rest == sub ==> start + [SEPARATOR] + rest == start + ([SEPARATOR] + sub)
    ensures rest == sub + [SEPARATOR] ==> start + [SEPARATOR] + rest == (start + ([SEPARATOR] + sub)) + [SEPARATOR]
    ensures rest + [SEPARATOR] == sub ==> (start + [SEPARATOR] + rest) + [SEPARATOR] == start + ([SEPARATOR] + sub)
  {
  }

  /** Every accepted path is an instance of the pattern with the captured values. */
  lemma {:induction false} MatchMeansInstance(pattern: string, path: string)
    requires AllExact(pattern) && MatchOf(pattern, path).0
    ensures IsInstance(pattern, path, MatchOf(pattern, path).1)
    decreases |pattern|
  {
    if !HasParam(pattern) {
      NoParam(pattern, path);
    } else {
      var c := FirstParam(pattern);
      var more := PartsOf(c.rest);
      NoPartsLeft(c.rest);
      SameAsItself(c.before);
      var p := PassFirst(pattern, path);
      match p
      case Whole(v) =>
        ValueAtEnd(c.before, c.before, more.fragments, c.name, more.names, v);
        assert c.rest == [];
        assert [v] + [] == [v];
        WholeInstance(pattern, v);
      case Split(v, rest) =>
        ValueThenMore(c.before, c.before, more.fragments, c.name, more.names, v, rest);
        MatchMeansInstance(c.rest, rest);
        SplitInstance(pattern, v, rest, MatchOf(c.rest, rest).1);
    }
  }

  /** Every instance of the pattern is accepted, and captures exactly its values. */
  lemma {:induction false} InstanceMatches(pattern: string, path: string, values: seq<string>)
    requires IsInstance(pattern, path, values)
    ensures MatchOf(pattern, path) == (true, values)
    decreases |pattern|, 1
  {
    if !HasParam(pattern) {
      SameAsItself(pattern);
      OnlyFragment(pattern, path);
      assert values == [];
    } else {
      HeadAndTail(values);
      InstanceWithValueMatches(pattern, path, values[0], values[1..]);
    }
  }

  lemma {:induction false} InstanceWithValueMatches(pattern: string, path: string, v: string, others: seq<string>)
    requires HasParam(pattern) && IsInstance(pattern, path, [v] + others)
    ensures MatchOf(pattern, path) == (true, [v] + others)
    decreases |pattern|, 0
  {
    var c := FirstParam(pattern);
    var more := PartsOf(c.rest);
    NoPartsLeft(c.rest);
    SlashFreeMore(v, others);
    SameAsItself(c.before);
    if path == c.before + v {
      InstanceEndsHere(pattern, v, others);
      ValueAtEnd(c.before, c.before, more.fragments, c.name, more.names, v);
    } else {
      var rest := InstanceGoesOn(pattern, path, v, others);
      ValueThenMore(c.before, c.before, more.fragments, c.name, more.names, v, rest);
      InstanceMatches(c.rest, rest, others);
    }
  }

  lemma SlashInside(pattern: string, values: seq<string>)
    requires |values| == |PartsOf(pattern).names| && EndsWithParamAndSlash(pattern)
    ensures Substituted(pattern, values) != []
  {
  }

  lemma InstanceEndsHere(pattern: string, v: string, others: seq<string>)
    requires HasParam(pattern) && IsInstance(pattern, FirstParam(pattern).before + v, [v] + others)
    ensures FirstParam(pattern).rest == [] && others == []
  {
    var c := FirstParam(pattern);
    SubstitutedAtFirst(pattern, v, others);
    NoPartsLeft(c.rest);
    if !c.last {
      assert |Substituted(pattern, [v] + others)| == |c.before + v| + 1 + |Substituted(c.rest, others)|;
      if EndsWithParamAndSlash(c.rest) {
        SlashInside(c.rest, others);
      }
    }
  }

  lemma DropLast(path: string, start: string, sub: string)
    requires path + [SEPARATOR] == start + ([SEPARATOR] + sub) && path != start
    ensures sub != [] && sub[..|sub| - 1] + [SEPARATOR] == sub && path == start + [SEPARATOR] + sub[..|sub| - 1]
  {
    var whole := start + ([SEPARATOR] + sub);
    assert path == whole[..|whole| - 1];
    assert whole[..|start|] == start;
    assert whole[|whole| - 1] == SEPARATOR;
  }

  lemma InstanceGoesOn(pattern: string, path: string, v: string, others: seq<string>) returns (rest: string)
    requires HasParam(pattern) && IsInstance(pattern, path, [v] + others) && path != FirstParam(pattern).before + v
    ensures path == FirstParam(pattern).before + v + [SEPARATOR] + rest
    ensures IsInstance(FirstParam(pattern).rest, rest, others)
  {
    var c := FirstParam(pattern);
    SubstitutedAtFirst(pattern, v, others);
    SlashFreeMore(v, others);
    var start, sub, whole := c.before + v, Substituted(c.rest, others), Substituted(pattern, [v] + others);
    if c.last {
      rest := [];
      LastParam(pattern, path, v, others);
    } else if path == whole {
      rest := sub;
      Regroup(start, rest, sub);
    } else if EndsWithParam(pattern) && path == whole + [SEPARATOR] {
      rest := sub + [SEPARATOR];
      Regroup(start, rest, sub);
    } else {
      DropLast(path, start, sub);
      rest := sub[..|sub| - 1];
    }
  }

  lemma LastParam(pattern: string, path: string, v: string, others: seq<string>)
    requires HasParam(pattern) && FirstParam(pattern).last
    requires IsInstance(pattern, path, [v] + others) && path != FirstParam(pattern).before + v
    ensures path == FirstParam(pattern).before + v + [SEPARATOR] + [] && IsInstance([], [], others)
  {
    var start := FirstParam(pattern).before + v;
    SubstitutedAtFirst(pattern, v, others);
    SlashFreeMore(v, others);
    assert start + [] == start;
    assert start + [SEPARATOR] + [] == start + [SEPARATOR];
  }

  // ---------------------------------------------------------------- what a terminator hides

  /** The text with another last character. */
  function Altered(f: string): (g: string)
    requires f != []
    ensures |g| == |f| && g != f
  {
    f[|f| - 1 := if f[|f| - 1] == 'x' then 'y' else 'x']
  }

  lemma {:induction false} AlteredIsSame(f: string)
    requires !Exact(f)
    ensures SameCString(Altered(f), f)
  {
    ExactTail(f);
    if f[0] != '\0' {
      AlteredIsSame(f[1..]);
      assert Altered(f)[1..] == Altered(f[1..]);
    }
  }

  /** A path that is accepted with these captures, as long as the pattern with these values in it, but not it. */
  ghost predicate Mistaken(pattern: string, path: string, values: seq<string>) {
    MatchOf(pattern, path) == (true, values) && |values| == |PartsOf(pattern).names|
    && |path| == |Substituted(pattern, values)| && path != Substituted(pattern, values)
  }

  lemma DifferInRest(start: string, p: string, sub: string)
    requires |p| == |sub| && p != sub
    ensures |start + [SEPARATOR] + p| == |start + ([SEPARATOR] + sub)|
    ensures start + [SEPARATOR] + p != start + ([SEPARATOR] + sub)
  {
    assert (start + [SEPARATOR] + p)[|start| + 1..] == p && (start + ([SEPARATOR] + sub))[|start| + 1..] == sub;
  }

  lemma DifferInStart(f: string, g: string, sub: string)
    requires |g| == |f| && g != f
    ensures |g + [] + [SEPARATOR] + sub| == |f + [] + ([SEPARATOR] + sub)|
    ensures g + [] + [SEPARATOR] + sub != f + [] + ([SEPARATOR] + sub)
  {
    assert (g + [] + [SEPARATOR] + sub)[..|g|] == g && (f + [] + ([SEPARATOR] + sub))[..|f|] == f;
  }

  lemma MistakenFirst(pattern: string, g: string, others: seq<string>)
    requires HasParam(pattern) && |g| == |FirstParam(pattern).before| && g != FirstParam(pattern).before
    requires SameCString(g, FirstParam(pattern).before) && !FirstParam(pattern).last
    requires |others| == |PartsOf(FirstParam(pattern).rest).names|
    requires IsInstance(FirstParam(pattern).rest, Substituted(FirstParam(pattern).rest, others), others)
    ensures Mistaken(pattern, g + [] + [SEPARATOR] + Substituted(FirstParam(pattern).rest, others), [[]] + others)
  {
    var c, more := FirstParam(pattern), PartsOf(FirstParam(pattern).rest);
    var sub := Substituted(c.rest, others);
    InstanceMatches(c.rest, sub, others);
    ValueThenMore(c.before, g, more.fragments, c.name, more.names, [], sub);
    SubstitutedAtFirst(pattern, [], others);
    DifferInStart(c.before, g, sub);
  }

  lemma MistakenLast(pattern: string, g: string)
    requires HasParam(pattern) && |g| == |FirstParam(pattern).before| && g != FirstParam(pattern).before
    requires SameCString(g, FirstParam(pattern).before) && FirstParam(pattern).last
    ensures Mistaken(pattern, g + [], [[]] + [])
  {
    var c, more := FirstParam(pattern), PartsOf(FirstParam(pattern).rest);
    ValueAtEnd(c.before, g, more.fragments, c.name, more.names, []);
    SubstitutedAtFirst(pattern, [], []);
    assert g + [] == g && c.before + [] + [] == c.before;
  }

  lemma MistakenLater(pattern: string, p: string, others: seq<string>)
    requires HasParam(pattern) && !FirstParam(pattern).last && Mistaken(FirstParam(pattern).rest, p, others)
    ensures Mistaken(pattern, FirstParam(pattern).before + [] + [SEPARATOR] + p, [[]] + others)
  {
    var c, more := FirstParam(pattern), PartsOf(FirstParam(pattern).rest);
    SameAsItself(c.before);
    ValueThenMore(c.before, c.before, more.fragments, c.name, more.names, [], p);
    SubstitutedAtFirst(pattern, [], others);
    DifferInRest(c.before + [], p, Substituted(c.rest, others));
  }

  function Blanks(n: nat): seq<string> {
    seq(n, _ => [])
  }

  /** Where a static text has a terminator before its end, some path is accepted that is not the pattern. */
  lemma {:induction false} TerminatorHides(pattern: string) returns (path: string, values: seq<string>)
    requires !AllExact(pattern)
    ensures Mistaken(pattern, path, values)
    decreases |pattern|
  {
    if !HasParam(pattern) {
      path, values := Altered(pattern), [];
      AlteredIsSame(pattern);
      OnlyFragment(pattern, path);
    } else {
      var c := FirstParam(pattern);
      if !Exact(c.before) {
        AlteredIsSame(c.before);
        if c.last {
          path, values := Altered(c.before) + [], [[]] + [];
          MistakenLast(pattern, Altered(c.before));
        } else {
          var others := Blanks(|PartsOf(c.rest).names|);
          path, values := Altered(c.before) + [] + [SEPARATOR] + Substituted(c.rest, others), [[]] + others;
          MistakenFirst(pattern, Altered(c.before), others);
        }
      } else {
        var p, others := TerminatorHides(c.rest);
        path, values := c.before + [] + [SEPARATOR] + p, [[]] + others;
        MistakenLater(pattern, p, others);
      }
    }
  }

  /** Paths are accepted, with these captures, exactly when they are the pattern with these values in it, if and
      only if each static text of the pattern is compared as a whole. */
  lemma MatchIffInstance(pattern: string)
    ensures AllExact(pattern)
            <==> forall path: string, values: seq<string> ::
                   MatchOf(pattern, path) == (true, values) <==> IsInstance(pattern, path, values)
  {
    forall path: string, values: seq<string> | IsInstance(pattern, path, values)
      ensures MatchOf(pattern, path) == (true, values)
    {
      InstanceMatches(pattern, path, values);
    }
    if AllExact(pattern) {
      forall path: string, values: seq<string> | MatchOf(pattern, path) == (true, values)
        ensures IsInstance(pattern, path, values)
      {
        MatchMeansInstance(pattern, path);
      }
    } else {
      var path, values := TerminatorHides(pattern);
      assert !IsInstance(pattern, path, values);
    }
  }

  /** So no path has two readings. */
  lemma CapturesAreUnique(pattern: string, path: string, values: seq<string>, others: seq<string>)
    requires IsInstance(pattern, path, values) && IsInstance(pattern, path, others)
    ensures values == others
  {
    InstanceMatches(pattern, path, values);
    InstanceMatches(pattern, path, others);
  }

  // ---------------------------------------------------------------- the captures by name

  /** The map of the captures; of two captures under one name the first stays. */
  function Captures(names: seq<string>, values: seq<string>): map<string, string> {
    if names == [] || values == [] then map[] else Captures(names[1..], values[1..])[names[0] := values[0]]
  }

  function Emplaced(params: map<string, string>, name: string, value: string): map<string, string> {
    if name in params then params else params[name := value]
  }

  /** Each further capture is put under its name unless the name has a value. */
  lemma {:induction false} CapturesStep(names: seq<string>, captured: seq<string>, v: string)
    requires |captured| < |names|
    ensures Captures(names, captured + [v]) == Emplaced(Captures(names, captured), names[|captured|], v)
  {
    if captured != [] {
      CapturesStep(names[1..], captured[1..], v);
      assert (captured + [v])[1..] == captured[1..] + [v];
    }
  }

  predicate HasValue(params: map<string, string>, name: string, value: string) {
    name in params && params[name] == value
  }

  /** Of the values captured under one name the first one stays. */
  lemma {:induction false} FirstStays(names: seq<string>, values: seq<string>, k: nat)
    requires k < |names| && k < |values| && forall j :: 0 <= j < k ==> names[j] != names[k]
    ensures HasValue(Captures(names, values), names[k], values[k])
  {
    if k > 0 {
      FirstStays(names[1..], values[1..], k - 1);
    }
  }

  ghost predicate OwnValues(names: seq<string>, values: seq<string>) {
    |values| == |names| && forall i :: 0 <= i < |names| ==> HasValue(Captures(names, values), names[i], values[i])
  }

  /** Each name has its own value, whatever the values, exactly when no name repeats. */
  lemma CapturesByName(names: seq<string>)
    ensures DistinctNames(names) <==> forall values: seq<string> :: |values| == |names| ==> OwnValues(names, values)
  {
    if DistinctNames(names) {
      forall values: seq<string> | |values| == |names|
        ensures OwnValues(names, values)
      {
        forall i | 0 <= i < |names|
          ensures HasValue(Captures(names, values), names[i], values[i])
        {
          FirstStays(names, values, i);
        }
      }
    } else {
      var i, j :| 0 <= i < j < |names| && names[i] == names[j];
      RepeatLosesAValue(names, i, j);
    }
  }

  lemma RepeatLosesAValue(names: seq<string>, i: nat, j: nat)
    requires i < j < |names| && names[i] == names[j]
    ensures exists values: seq<string> :: |values| == |names| && !OwnValues(names, values)
  {
    var values: seq<string> := seq(|names|, k => if k == i then "" else "x");
    assert values[i] != values[j];
    assert HasValue(Captures(names, values), names[i], values[i])
           ==> !HasValue(Captures(names, values), names[j], values[j]);
  }

  /** The pattern "/:name/:name". */
  function Repeating(name: string): string {
    "/" + [MARKER] + name + [SEPARATOR] + ([] + [MARKER] + name)
  }

  lemma RepeatingParts(name: string)
    requires SEPARATOR !in name
    ensures PartsOf(Repeating(name)) == Parts(["/"] + [[]], [name] + [name])
  {
    TwoParamsParts("/", name, [] + [MARKER] + name);
  }

  lemma TwoParamsParts(before: string, name: string, last: string)
    requires MARKER !in before && SEPARATOR !in name && last == [] + [MARKER] + name
    ensures PartsOf(before + [MARKER] + name + [SEPARATOR] + last) == Parts([before] + [[]], [name] + [name])
  {
    OneParam(before, name, last);
    PartsFrom(before + [MARKER] + name + [SEPARATOR] + last);
    LastParts(name, last);
  }

  lemma LastParts(name: string, last: string)
    requires SEPARATOR !in name && last == [] + [MARKER] + name
    ensures PartsOf(last) == Parts([[]], [name])
  {
    LastNamed([], name);
    PartsFrom(last);
    assert PartsOf([]) == Parts([], []);
  }

  lemma PartsFrom(pattern: string)
    requires HasParam(pattern)
    ensures var c := FirstParam(pattern);
            PartsOf(pattern) == Parts([c.before] + PartsOf(c.rest).fragments, [c.name] + PartsOf(c.rest).names)
  {
  }

  lemma RepeatingMatches(name: string, x: string, y: string)
    requires SEPARATOR !in name && SEPARATOR !in x && SEPARATOR !in y
    ensures MatchOf(Repeating(name), "/" + x + [SEPARATOR] + y) == (true, [x] + [y])
  {
    RepeatingParts(name);
    SameAsItself("/");
    ValueThenMore("/", "/", [[]], name, [name], x, y);
    ValueAtEnd([], [], [], name, [], y);
    var empty: seq<string> := [[]];
    assert empty + [] == empty && [name] + [] == [name] && [] + y == y;
    assert Matched([], [], Beyond) == (true, []) && [y] + [] == [y];
  }

  /** A pattern such as "/:a/:a" is accepted where it was meant to be refused, and of two values that a path
      has under the name the second one is lost. */
  lemma RepeatedNameIsAccepted(name: string, x: string, y: string)
    requires SEPARATOR !in name && SEPARATOR !in x && SEPARATOR !in y
    ensures Built(Repeating(name), {}) == Some(PartsOf(Repeating(name))) && BuiltAsMeant(Repeating(name), {}) == None
    ensures MatchOf(Repeating(name), "/" + x + [SEPARATOR] + y) == (true, [x] + [y])
    ensures Captures(PartsOf(Repeating(name)).names, [x] + [y]) == map[name := x]
  {
    RepeatingParts(name);
    RepeatingMatches(name, x, y);
    NothingIsRefused(Repeating(name));
    MeantRefusesRepeats(Repeating(name), {});
    CapturesOfTwo(name, x, y);
  }

  lemma CapturesOfTwo(name: string, x: string, y: string)
    ensures Captures([name] + [name], [x] + [y]) == map[name := x] && !DistinctNames([name] + [name])
  {
    var names, values := [name] + [name], [x] + [y];
    assert names[1..] == [name] && values[1..] == [y] && names[0] == names[1];
    assert [name][1..] == [] && Captures([name], [y]) == map[name := y];
  }

  lemma OneParam(before: string, name: string, rest: string)
    requires MARKER !in before && SEPARATOR !in name
    ensures var pattern := before + [MARKER] + name + [SEPARATOR] + rest;
            HasParam(pattern) && FirstParam(pattern) == Cut(before, name, false, rest)
  {
    var pattern := before + [MARKER] + name + [SEPARATOR] + rest;
    IndexIs(pattern, MARKER, |before|);
    assert pattern[..|before|] == before;
    var tail := pattern[|before| + 1..];
    assert tail == name + [SEPARATOR] + rest;
    IndexIs(tail, SEPARATOR, |name|);
    assert tail[..|name|] == name && tail[|name| + 1..] == rest;
  }

  lemma LastNamed(before: string, name: string)
    requires MARKER !in before && SEPARATOR !in name
    ensures HasParam(before + [MARKER] + name)
    ensures FirstParam(before + [MARKER] + name) == Cut(before, name, true, [])
  {
    var pattern := before + [MARKER] + name;
    IndexIs(pattern, MARKER, |before|);
    assert pattern[..|before|] == before && pattern[|before| + 1..] == name;
    IndexIs(name, SEPARATOR, |name|);
  }

  // ---------------------------------------------------------------- the matcher

  method CompareCStrings(a: string, start: nat, b: string) returns (same: bool)
    requires start + |b| <= |a|
    ensures same == SameCString(a[start..start + |b|], b)
  {
    for k := 0 to |b|
      invariant SameCString(a[start..start + |b|], b) == SameCString(a[start + k..start + |b|], b[k..])
    {
      assert a[start + k..start + |b|][1..] == a[start + k + 1..start + |b|] && b[k..][1..] == b[k + 1..];
      if a[start + k] != b[k] {
        return false;
      }
      if b[k] == '\0' {
        return true;
      }
    }
    return true;
  }

  /** What is left of the pattern after the last parameter. */
  ghost predicate LeftOf(pattern: string, pos: nat, rest: string) {
    if pos <= |pattern| then rest == pattern[pos..] else pos == |pattern| + 1 && rest == []
  }

  /** The next parameter of a pattern, if there is one. */
  method NextParam(pattern: string, pos: nat, ghost rest: string)
    returns (found: bool, before: string, name: string, next: nat)
    requires pos <= |pattern| && LeftOf(pattern, pos, rest)
    ensures found == HasParam(rest)
    ensures found ==> before == FirstParam(rest).before && name == FirstParam(rest).name
                      && LeftOf(pattern, next, FirstParam(rest).rest) && pos < next <= |pattern| + 1
  {
    before, name, next := [], [], pos;
    var markerPos := Search.FindCharacter(pattern, pos, |pattern|, MARKER);
    IndexIs(pattern[pos..], MARKER, markerPos - pos);
    found := markerPos < |pattern|;
    if found {
      before, name, next := ParamAt(pattern, pos, rest, markerPos, markerPos - pos);
    }
  }

  /** The parameter with its marker at `markerPos`. */
  method ParamAt(pattern: string, pos: nat, ghost s: string, markerPos: nat, ghost m: nat)
    returns (before: string, name: string, next: nat)
    requires pos <= |pattern| && s == pattern[pos..] && m == IndexOf(s, MARKER) < |s| && markerPos == pos + m
    ensures before == FirstParam(s).before && name == FirstParam(s).name
    ensures pos < next <= |pattern| + 1 && LeftOf(pattern, next, FirstParam(s).rest)
  {
    var nameStart := markerPos + 1;
    var sepPos := Search.FindCharacter(pattern, nameStart, |pattern|, SEPARATOR);
    IndexIs(pattern[nameStart..], SEPARATOR, sepPos - nameStart);
    CutAt(pattern, pos, s, m, markerPos, pattern[nameStart..], sepPos);
    before, name, next := pattern[pos..markerPos], pattern[nameStart..sepPos], sepPos + 1;
  }

  /** The static fragments and the names of a pattern; None when a name is in the set. */
  method TakeApart(pattern: string, paramNameSet: set<string>) returns (r: Option<Parts>)
    ensures r == Built(pattern, paramNameSet)
  {
    var lastParamEnd: nat := 0;
    var fragments, names := [], [];
    ghost var rest := pattern;
    assert pattern[0..] == pattern;
    AppendedNothing(Built(pattern, paramNameSet));
    while lastParamEnd <= |pattern|
      invariant LeftOf(pattern, lastParamEnd, rest)
      invariant Appended(fragments, names, Built(rest, paramNameSet)) == Built(pattern, paramNameSet)
      decreases |pattern| + 1 - lastParamEnd
    {
      var found, before, name, next := NextParam(pattern, lastParamEnd, rest);
      if !found {
        break;
      }
      if name in paramNameSet {
        return None;
      }
      AppendStep(fragments, names, rest, paramNameSet);
      fragments, names := fragments + [before], names + [name];
      rest := FirstParam(rest).rest;
      lastParamEnd := next;
    }
    AppendRest(fragments, names, rest, paramNameSet);
    if lastParamEnd < |pattern| {
      fragments := fragments + [pattern[lastParamEnd..]];
    }
    r := Some(Parts(fragments, names));
  }

  lemma AppendRest(fragments: seq<string>, names: seq<string>, rest: string, seen: set<string>)
    requires !HasParam(rest)
    ensures Appended(fragments, names, Built(rest, seen))
            == Some(Parts(if rest == [] then fragments else fragments + [rest], names))
  {
    assert fragments + [] == fragments && names + [] == names;
  }

  class PathParamsMatcher {
    const pattern: string
    const staticFragments: seq<string>
    const paramNames: seq<string>

    ghost predicate Valid() {
      Parts(staticFragments, paramNames) == PartsOf(pattern)
    }

    constructor (pattern: string, parts: Parts)
      requires parts == PartsOf(pattern)
      ensures Valid() && this.pattern == pattern
    {
      this.pattern := pattern;
      staticFragments, paramNames := parts.fragments, parts.names;
    }

    /** A matcher for the pattern, or None where the source throws. */
    static method Create(pattern: string) returns (r: Option<PathParamsMatcher>)
      ensures r.Some? <==> Built(pattern, {}).Some?
      ensures r.Some? ==> fresh(r.value) && r.value.Valid() && r.value.pattern == pattern
    {
      var parts := TakeApart(pattern, {});
      if parts == None {
        return None;
      }
      NothingIsRefused(pattern);
      var matcher := new PathParamsMatcher(pattern, parts.value);
      r := Some(matcher);
    }

    /** Whether the path matches, and what was captured by name, on failure up to where matching stopped. */
    method Match(path: string) returns (ok: bool, params: map<string, string>)
      requires Valid()
      ensures ok == MatchOf(pattern, path).0
      ensures params == Captures(paramNames, MatchOf(pattern, path).1)
    {
      ok, params := MatchParts(path, MatchOf(pattern, path));
    }

    method MatchParts(path: string, ghost whole: (bool, seq<string>)) returns (ok: bool, params: map<string, string>)
      requires Matched(staticFragments, paramNames, From(path)) == whole
      ensures ok == whole.0 && params == Captures(paramNames, whole.1)
    {
      params := map[];
      var startingPos: nat := 0;
      ghost var at := Reached([], staticFragments, paramNames, From(path));
      PrefixedNothing(whole);
      assert path[0..] == path;
      for i := 0 to |staticFragments|
        invariant Stands(path, i, startingPos, at, whole) && params == Captures(paramNames, at.captured)
      {
        var same;
        same, params, startingPos, at := MatchNext(path, i, startingPos, at, whole, params);
        if !same {
          return false, params;
        }
      }
      PrefixedStop(at.captured);
      assert at.fragments == [];
      ok := startingPos >= |path|;
    }

    /** Where matching stands after `i` fragments. */
    ghost predicate Stands(path: string, i: nat, pos: nat, at: Reached, whole: (bool, seq<string>)) {
      |at.captured| == Least(i, |paramNames|)
      && Tail(staticFragments, i, at.fragments) && Tail(paramNames, |at.captured|, at.names)
      && LeftAt(path, pos, at.rest)
      && Prefixed(at.captured, Matched(at.fragments, at.names, at.rest)) == whole
    }

    /** The next fragment, and the value after it if there is a name for it. */
    method MatchNext(path: string, i: nat, pos: nat, ghost at: Reached, ghost whole: (bool, seq<string>),
                     params0: map<string, string>)
      returns (same: bool, params: map<string, string>, next: nat, ghost after: Reached)
      requires i < |staticFragments| && Stands(path, i, pos, at, whole) && params0 == Captures(paramNames, at.captured)
      ensures if same then Stands(path, i + 1, next, after, whole) && params == Captures(paramNames, after.captured)
              else !whole.0 && params == Captures(paramNames, whole.1)
    {
      var fragment, value := staticFragments[i], [];
      params, after := params0, at;
      TailStep(staticFragments, i, at.fragments);
      NextFragment(fragment, at.fragments[1..], at.names, at.rest);
      same, value, next := MatchFragment(fragment, i < |paramNames|, path, pos, at.rest);
      if !same {
        PrefixedStop(at.captured);
      } else if i < |paramNames| {
        params, after := Capture(i, fragment, value, params0, at);
      } else {
        after := at.(fragments := at.fragments[1..], rest := From(at.rest.path[|fragment|..]));
      }
    }

    /** The value put under its name. */
    method Capture(i: nat, ghost fragment: string, value: string, params0: map<string, string>, ghost at: Reached)
      returns (params: map<string, string>, ghost after: Reached)
      requires i == |at.captured| < |paramNames| && Tail(paramNames, i, at.names) && at.fragments != []
      requires StartsWith(at.rest, fragment) && value == ValueIn(at.rest, fragment)
      requires params0 == Captures(paramNames, at.captured)
      ensures at.names != []
              && after == Reached(at.captured + [value], at.fragments[1..], at.names[1..],
                                  AfterValue(at.rest, fragment))
      ensures Tail(paramNames, i + 1, after.names) && params == Captures(paramNames, after.captured)
      ensures Prefixed(at.captured, Prefixed([value], Matched(after.fragments, after.names, after.rest)))
              == Prefixed(after.captured, Matched(after.fragments, after.names, after.rest))
    {
      TailStep(paramNames, i, at.names);
      after := Reached(at.captured + [value], at.fragments[1..], at.names[1..], AfterValue(at.rest, fragment));
      PrefixedStep(at.captured, value, Matched(after.fragments, after.names, after.rest));
      CapturesStep(paramNames, at.captured, value);
      params := Emplaced(params0, paramNames[i], value);
    }
  }

  /** The values captured so far, and the fragments, the names and the path that are left. */
  datatype Reached = Reached(captured: seq<string>, fragments: seq<string>, names: seq<string>, rest: Rest)

  /** `rest` is what the position leaves of the path. */
  ghost predicate LeftAt(path: string, pos: nat, rest: Rest) {
    match rest
    case Beyond => pos == |path| + 1
    case From(p) => pos <= |path| && path[pos..] == p
  }

  function AfterValue(rest: Rest, f: string): Rest
    requires rest.From? && |f| <= |rest.path|
  {
    var after := rest.path[|f|..];
    var k := IndexOf(after, SEPARATOR);
    if k == |after| then Beyond else From(after[k + 1..])
  }

  function ValueIn(rest: Rest, f: string): string
    requires rest.From? && |f| <= |rest.path|
  {
    rest.path[|f|..][..IndexOf(rest.path[|f|..], SEPARATOR)]
  }

  predicate StartsWith(rest: Rest, f: string) {
    rest.From? && |f| <= |rest.path| && SameCString(rest.path[..|f|], f)
  }

  lemma NextFragment(f: string, fragments: seq<string>, names: seq<string>, rest: Rest)
    ensures Matched([f] + fragments, names, rest)
            == if !StartsWith(rest, f) then (false, [])
               else if names == [] then Matched(fragments, [], From(rest.path[|f|..]))
               else Prefixed([ValueIn(rest, f)], Matched(fragments, names[1..], AfterValue(rest, f)))
  {
    assert ([f] + fragments)[1..] == fragments;
  }

  lemma CutPath(path: string, pos: nat, n: nat, sep: nat)
    requires pos <= n <= sep <= |path|
    ensures path[pos..][..n - pos] == path[pos..n] && path[pos..][n - pos..] == path[n..]
    ensures path[n..][..sep - n] == path[n..sep]
    ensures sep < |path| ==> path[n..][sep - n + 1..] == path[sep + 1..]
  {
  }

  /** The comparison with one fragment, and the value after it if there is a name for it. */
  method MatchFragment(fragment: string, named: bool, path: string, pos: nat, ghost rest: Rest)
    returns (same: bool, value: string, next: nat)
    requires LeftAt(path, pos, rest)
    ensures same == StartsWith(rest, fragment)
    ensures same ==> LeftAt(path, next, if named then AfterValue(rest, fragment) else From(rest.path[|fragment|..]))
    ensures same && named ==> value == ValueIn(rest, fragment)
  {
    value, next := [], pos + |fragment|;
    if next > |path| {
      return false, value, next;
    }
    same := CompareCStrings(path, pos, fragment);
    CutPath(path, pos, next, next);
    if same && named {
      var sepPos := Search.FindCharacter(path, next, |path|, SEPARATOR);
      IndexIs(path[next..], SEPARATOR, sepPos - next);
      CutPath(path, pos, next, sepPos);
      value := path[next..sepPos];
      next := sepPos + 1;
    }
  }

  lemma PrefixedNothing(r: (bool, seq<string>))
    ensures Prefixed([], r) == r
  {
    assert [] + r.1 == r.1;
  }

  lemma PrefixedStop(captured: seq<string>)
    ensures forall ok: bool :: Prefixed(captured, (ok, [])) == (ok, captured)
  {
    assert captured + [] == captured;
  }

  lemma PrefixedStep(captured: seq<string>, v: string, r: (bool, seq<string>))
    ensures Prefixed(captured, Prefixed([v], r)) == Prefixed(captured + [v], r)
  {
    assert captured + ([v] + r.1) == (captured + [v]) + r.1;
  }

  function Prefixed(captured: seq<string>, r: (bool, seq<string>)): (bool, seq<string>) {
    (r.0, captured + r.1)
  }

  function Appended(fragments: seq<string>, names: seq<string>, more: Option<Parts>): Option<Parts> {
    match more
    case None => None
    case Some(parts) => Some(Parts(fragments + parts.fragments, names + parts.names))
  }

  lemma AppendedNothing(more: Option<Parts>)
    ensures Appended([], [], more) == more
  {
    if more.Some? {
      assert [] + more.value.fragments == more.value.fragments && [] + more.value.names == more.value.names;
    }
  }

  lemma AppendStep(fragments: seq<string>, names: seq<string>, rest: string, seen: set<string>)
    requires HasParam(rest) && FirstParam(rest).name !in seen
    ensures var c := FirstParam(rest);
            Appended(fragments, names, Built(rest, seen))
            == Appended(fragments + [c.before], names + [c.name], Built(c.rest, seen))
  {
    var c := FirstParam(rest);
    var more := Built(c.rest, seen);
    if more.Some? {
      Associate(fragments, [c.before], more.value.fragments);
      Associate(names, [c.name], more.value.names);
    }
  }

  /** The first parameter of the text `s` from `start` on, by the positions of its marker and its separator. */
  lemma CutAt(pattern: string, start: nat, s: string, m: nat, marker: nat, tail: string, sep: nat)
    requires start <= |pattern| && s == pattern[start..] && m == IndexOf(s, MARKER) < |s| && marker == start + m
    requires tail == pattern[marker + 1..] && sep == marker + 1 + IndexOf(tail, SEPARATOR)
    ensures sep <= |pattern|
    ensures FirstParam(s) == Cut(pattern[start..marker], pattern[marker + 1..sep], sep == |pattern|,
                                 if sep < |pattern| then pattern[sep + 1..] else [])
  {
    SliceTwice(pattern, start, marker, marker + 1);
    CutTail(pattern, s, m, pattern[start..marker], marker + 1, tail, sep);
  }

  lemma CutTail(pattern: string, s: string, m: nat, before: string, start: nat, tail: string, sep: nat)
    requires m == IndexOf(s, MARKER) < |s| && before == s[..m] && tail == s[m + 1..]
    requires start <= |pattern| && tail == pattern[start..] && sep == start + IndexOf(tail, SEPARATOR)
    ensures sep <= |pattern|
    ensures FirstParam(s) == Cut(before, pattern[start..sep], sep == |pattern|,
                                 if sep < |pattern| then pattern[sep + 1..] else [])
  {
    if sep < |pattern| {
      SliceTwice(pattern, start, sep, sep + 1);
      MiddleParamIs(s, m, before, tail, sep - start, pattern[start..sep], pattern[sep + 1..]);
    } else {
      SliceTwice(pattern, start, sep, sep);
      LastParamIs(s, m, before, tail);
    }
  }

  lemma MiddleParamIs(s: string, m: nat, before: string, tail: string, k: nat, name: string, rest: string)
    requires m == IndexOf(s, MARKER) < |s| && before == s[..m] && tail == s[m + 1..]
    requires k == IndexOf(tail, SEPARATOR) < |tail| && name == tail[..k] && rest == tail[k + 1..]
    ensures FirstParam(s) == Cut(before, name, false, rest)
  {
  }

  lemma LastParamIs(s: string, m: nat, before: string, tail: string)
    requires m == IndexOf(s, MARKER) < |s| && before == s[..m] && tail == s[m + 1..]
             && IndexOf(tail, SEPARATOR) == |tail|
    ensures FirstParam(s) == Cut(before, tail, true, [])
  {
  }

  lemma SliceTwice(s: string, i: nat, j: nat, k: nat)
    requires i <= j <= k <= |s|
    ensures s[i..][..j - i] == s[i..j] && s[i..][k - i..] == s[k..]
    ensures j == |s| ==> s[i..] == s[i..j]
  {
  }
}
