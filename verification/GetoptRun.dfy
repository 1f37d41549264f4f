/**
  Whole runs of the option parser: calling until the first -1 reports exactly what an in-order parse
  of the original arguments reports, and leaves the vector stably partitioned into options and
  non-options, whatever exchanges happened on the way.
 */
module GetoptRun {
  import opened GetoptSpec
  import opened Sequences
  import opened Wrappers

  // ---------------------------------------------------------------- the in-order parse

  function Weight(rest: seq<string>): nat {
    if rest == [] then 0 else |rest[0]| + 1 + Weight(rest[1..])
  }

  lemma {:induction false} WeightOfTail(rest: seq<string>, n: nat)
    requires n <= |rest|
    ensures Weight(rest[n..]) + n <= Weight(rest)
  {
    if n > 0 {
      WeightOfTail(rest[1..], n - 1);
      assert rest[1..][n - 1..] == rest[n..];
    }
  }

  /** The unread characters, weighted by element: what is left of a pending cluster and the elements after it. */
  function Unread(rest: seq<string>, next: string): nat {
    if next == "" then Weight(rest)
    else if rest == [] then 0
    else |next| + Weight(rest[1..])
  }

  lemma ScanReadsOn(cfg: Config, rest: seq<string>, next: string)
    requires OptionFirst(rest, next)
    ensures var r := ScanOption(cfg, rest, next); Unread(rest[r.consumed..], r.next) < Unread(rest, next)
  {
    var r := ScanOption(cfg, rest, next);
    if r.next == "" {
      WeightOfTail(rest[1..], r.consumed - 1);
      assert rest[1..][r.consumed - 1..] == rest[r.consumed..];
    } else {
      assert rest[0..] == rest;
    }
  }

  lemma Advance(cfg: Config, rest: seq<string>, next: string)
    requires OptionFirst(rest, next)
    ensures var r := ScanOption(cfg, rest, next); r.next != "" ==> OptionFirst(rest[r.consumed..], r.next)
  {
    assert rest[0..] == rest;
  }

  /** What a parse reports, and the elements it takes as options and as non-options, each in order. */
  datatype Parsed = Parsed(reports: seq<Report>, options: seq<string>, others: seq<string>)

  /** The parse of unread elements that never moves anything. */
  function Parse(cfg: Config, ordering: Ordering, rest: seq<string>, next: string): Parsed
    requires next != "" ==> OptionFirst(rest, next)
    decreases Unread(rest, next)
  {
    if rest == [] then Parsed([], [], [])
    else if rest[0] == "--" then Parsed([], ["--"], rest[1..])
    else if IsNonOption(rest[0]) then
      if ordering == RequireOrder then Parsed([], [], rest)
      else
        var p := Parse(cfg, ordering, rest[1..], "");
        if ordering == Permute then p.(others := [rest[0]] + p.others)
        else p.(reports := [Report(NON_OPTION, Some(rest[0]), None, None, None)] + p.reports,
                options := [rest[0]] + p.options)
    else
      ScanReadsOn(cfg, rest, next);
      var r := ScanOption(cfg, rest, next);
      Advance(cfg, rest, next);
      var p := Parse(cfg, ordering, rest[r.consumed..], r.next);
      Parsed([r.report] + p.reports, rest[..r.consumed] + p.options, p.others)
  }

  /** The sequence is an interleaving of the two parts: neither part changes its order. */
  ghost predicate StablePartition<T>(s: seq<T>, chosen: seq<T>, others: seq<T>)
    decreases |s|
  {
    if s == [] then chosen == [] && others == []
    else
      (chosen != [] && chosen[0] == s[0] && StablePartition(s[1..], chosen[1..], others))
      || (others != [] && others[0] == s[0] && StablePartition(s[1..], chosen, others[1..]))
  }

  lemma PrependChosen<T>(x: T, s: seq<T>, chosen: seq<T>, others: seq<T>)
    requires StablePartition(s, chosen, others)
    ensures StablePartition([x] + s, [x] + chosen, others) && StablePartition([x] + s, chosen, [x] + others)
  {
    assert ([x] + s)[1..] == s && ([x] + chosen)[1..] == chosen && ([x] + others)[1..] == others;
  }

  lemma {:induction false} PrependOptions<T>(front: seq<T>, s: seq<T>, chosen: seq<T>, others: seq<T>)
    requires StablePartition(s, chosen, others)
    ensures StablePartition(front + s, front + chosen, others)
    decreases |front|
  {
    if front == [] {
      assert front + s == s && front + chosen == chosen;
    } else {
      PrependOptions(front[1..], s, chosen, others);
      PrependChosen(front[0], front[1..] + s, front[1..] + chosen, others);
      assert [front[0]] + (front[1..] + s) == front + s;
      assert [front[0]] + (front[1..] + chosen) == front + chosen;
    }
  }

  lemma {:induction false} NoneChosen<T>(s: seq<T>)
    ensures StablePartition(s, [], s)
    decreases |s|
  {
    if s != [] {
      NoneChosen(s[1..]);
    }
  }

  lemma {:induction false} PartitionIsPermutation<T>(s: seq<T>, chosen: seq<T>, others: seq<T>)
    requires StablePartition(s, chosen, others)
    ensures multiset(chosen) + multiset(others) == multiset(s) && |chosen| + |others| == |s|
    decreases |s|
  {
    if s != [] {
      OneMore(s);
      if chosen != [] && chosen[0] == s[0] && StablePartition(s[1..], chosen[1..], others) {
        PartitionIsPermutation(s[1..], chosen[1..], others);
        OneMore(chosen);
      } else {
        PartitionIsPermutation(s[1..], chosen, others[1..]);
        OneMore(others);
      }
    }
  }

  lemma OneMore<T>(s: seq<T>)
    requires s != []
    ensures multiset(s) == multiset{s[0]} + multiset(s[1..])
  {
    HeadAndTail(s);
  }

  /** The in-order parse splits the arguments stably into options and others. */
  lemma {:induction false} ParseIsPartition(cfg: Config, ordering: Ordering, rest: seq<string>, next: string)
    requires next != "" ==> OptionFirst(rest, next)
    ensures var p := Parse(cfg, ordering, rest, next); StablePartition(rest, p.options, p.others)
    decreases Unread(rest, next)
  {
    if rest == [] {
    } else if rest[0] == "--" {
      NoneChosen(rest[1..]);
      assert ["--"][1..] == [];
    } else if IsNonOption(rest[0]) && ordering == RequireOrder {
      NoneChosen(rest);
    } else if IsNonOption(rest[0]) {
      ParseIsPartition(cfg, ordering, rest[1..], "");
      OneInFront(rest, Parse(cfg, ordering, rest[1..], ""));
    } else {
      ScanReadsOn(cfg, rest, next);
      var r := ScanOption(cfg, rest, next);
      Advance(cfg, rest, next);
      ParseIsPartition(cfg, ordering, rest[r.consumed..], r.next);
      OptionsInFront(rest, r.consumed, Parse(cfg, ordering, rest[r.consumed..], r.next));
    }
  }

  lemma OneInFront(rest: seq<string>, p: Parsed)
    requires rest != [] && StablePartition(rest[1..], p.options, p.others)
    ensures StablePartition(rest, [rest[0]] + p.options, p.others)
            && StablePartition(rest, p.options, [rest[0]] + p.others)
  {
    PrependChosen(rest[0], rest[1..], p.options, p.others);
    assert [rest[0]] + rest[1..] == rest;
  }

  lemma OptionsInFront(rest: seq<string>, n: nat, p: Parsed)
    requires n <= |rest| && StablePartition(rest[n..], p.options, p.others)
    ensures StablePartition(rest, rest[..n] + p.options, p.others)
  {
    PrependOptions(rest[..n], rest[n..], p.options, p.others);
    assert rest[..n] + rest[n..] == rest;
  }

  lemma SkipHead(rest: seq<string>)
    requires rest != [] && IsNonOption(rest[0])
    ensures SkipNonOptions(rest, 0) == 1 + SkipNonOptions(rest[1..], 0)
  {
    SkipInLayout([rest[0]], rest[1..], 0);
    assert [rest[0]] + rest[1..] == rest;
  }

  lemma PrependOther(p: Parsed, q: Parsed, head: string, front: seq<string>)
    requires p == q.(others := front + q.others)
    ensures p.(others := [head] + p.others) == q.(others := ([head] + front) + q.others)
  {
    assert [head] + (front + q.others) == ([head] + front) + q.others;
  }

  lemma TailSlices(rest: seq<string>, tail: seq<string>, k: nat)
    requires rest != [] && tail == rest[1..] && k <= |tail|
    ensures tail[k..] == rest[k + 1..] && [rest[0]] + tail[..k] == rest[..k + 1]
  {
  }

  /** Skipping the non-options first and parsing the rest is parsing it all. */
  lemma {:induction false} ParseSkips(cfg: Config, rest: seq<string>)
    ensures var k := SkipNonOptions(rest, 0);
            var p := Parse(cfg, Permute, rest[k..], "");
            Parse(cfg, Permute, rest, "") == p.(others := rest[..k] + p.others)
    decreases |rest|
  {
    if rest == [] || !IsNonOption(rest[0]) {
      assert rest[0..] == rest;
    } else {
      var tail := rest[1..];
      var k := SkipNonOptions(tail, 0);
      SkipHead(rest);
      ParseSkips(cfg, tail);
      TailSlices(rest, tail, k);
      PrependOther(Parse(cfg, Permute, tail, ""), Parse(cfg, Permute, tail[k..], ""), rest[0], tail[..k]);
      var p := Parse(cfg, Permute, tail, "");
      assert Parse(cfg, Permute, rest, "") == p.(others := [rest[0]] + p.others);
    }
  }

  // ---------------------------------------------------------------- the layout of the vector

  /** Where things stand between calls: what was there at the start, the options already in front,
      the block of non-options, the options since, and the unread elements. */
  datatype Layout = Layout(pre: seq<string>, before: seq<string>, block: seq<string>, since: seq<string>,
                           rest: seq<string>)
  {
    function Vector(): seq<string> { pre + before + block + since + rest }
    function Options(): seq<string> { before + since }
  }

  ghost predicate AllNonOptions(block: seq<string>) {
    forall j :: 0 <= j < |block| ==> IsNonOption(block[j])
  }

  ghost predicate Laid(w: World, l: Layout) {
    w.argv == l.Vector() && w.st.first == |l.pre| + |l.before| && w.st.last == w.st.first + |l.block|
    && w.st.optind == w.st.last + |l.since|
    && (w.st.ordering != Permute ==> l.before == [] && l.block == [])
    && (w.st.nextchar != "" ==> OptionFirst(l.rest, w.st.nextchar))
    && w.st.initialized && |l.pre| > 0
    && AllNonOptions(l.block)
  }

  lemma RotateLayout(l: Layout)
    ensures var first := |l.pre| + |l.before|; var last := first + |l.block|;
            Rotate(l.Vector(), first, last, last + |l.since|)
            == Layout(l.pre, l.before + l.since, l.block, [], l.rest).Vector()
  {
  }

  lemma RestOfLayout(w: World, l: Layout)
    requires Laid(w, l)
    ensures InRange(w.st, w.argv) && w.argv[w.st.optind..] == l.rest && ClampBlock(w.st) == w.st
  {
  }

  lemma {:induction false} SkipInLayout(front: seq<string>, rest: seq<string>, i: nat)
    requires i <= |rest|
    ensures SkipNonOptions(front + rest, |front| + i) == |front| + SkipNonOptions(rest, i)
    decreases |rest| - i
  {
    if i < |rest| && IsNonOption(rest[i]) {
      SkipInLayout(front, rest, i + 1);
    }
  }

  function Tidied(l: Layout): Layout {
    var k := SkipNonOptions(l.rest, 0);
    Layout(l.pre, l.before + l.since, l.block + l.rest[..k], [], l.rest[k..])
  }

  lemma GatherLayout(w: World, l: Layout) returns (gathered: World)
    requires Laid(w, l) && w.st.ordering == Permute && w.st.nextchar == ""
    ensures Laid(gathered, Layout(l.pre, l.before + l.since, l.block, [], l.rest))
    ensures gathered.st.optind == w.st.optind
    ensures var k := SkipNonOptions(gathered.argv, w.st.optind);
            InRange(w.st, w.argv) && Tidy(w) == gathered.(st := gathered.st.(optind := k, last := k))
  {
    RestOfLayout(w, l);
    var st := w.st;
    if st.first != st.last && st.last != st.optind {
      RotateLayout(l);
      gathered := Exchange(w);
    } else if st.last != st.optind {
      assert l.block == [];
      assert l.Vector() == Layout(l.pre, l.before + l.since, [], [], l.rest).Vector();
      gathered := w.(st := st.(first := st.optind, last := st.optind));
    } else {
      assert l.since == [] && l.before + l.since == l.before;
      gathered := w;
    }
  }

  lemma TidyLayout(w: World, l: Layout)
    requires Laid(w, l) && w.st.ordering == Permute && w.st.nextchar == ""
    ensures InRange(w.st, w.argv) && Laid(Tidy(w), Tidied(l))
  {
    var g := GatherLayout(w, l);
    GatheredSkips(g, l, w.st.optind);
  }

  /** Skipping non-options from the gathered layout on. */
  lemma GatheredSkips(g: World, l: Layout, optind: nat)
    requires Laid(g, Layout(l.pre, l.before + l.since, l.block, [], l.rest)) && g.st.optind == optind
    requires AllNonOptions(l.block) && g.st.nextchar == "" && g.st.ordering == Permute
    ensures optind <= |g.argv|
    ensures var k := SkipNonOptions(g.argv, optind); Laid(g.(st := g.st.(optind := k, last := k)), Tidied(l))
  {
    var front := l.pre + (l.before + l.since) + l.block;
    assert g.argv == front + l.rest && optind == |front|;
    SkipInLayout(front, l.rest, 0);
    TidiedVector(l);
    TidiedBlock(l);
  }

  lemma TidiedVector(l: Layout)
    ensures Tidied(l).Vector() == l.pre + (l.before + l.since) + l.block + [] + l.rest
  {
    var k := SkipNonOptions(l.rest, 0);
    assert l.rest == l.rest[..k] + l.rest[k..];
  }

  lemma TidiedBlock(l: Layout)
    requires AllNonOptions(l.block)
    ensures AllNonOptions(Tidied(l).block)
  {
  }

  /** The vector and optind as the run ends. */
  ghost predicate Ended(w: World, pre: seq<string>, options: seq<string>, others: seq<string>) {
    w.argv == pre + options + others && w.st.optind == |pre| + |options|
  }

  lemma DashesVector(l: Layout)
    requires l.rest != [] && l.rest[0] == "--"
    ensures var l1 := Layout(l.pre, l.before, l.block, l.since + ["--"], l.rest[1..]);
            l1.Vector() == l.Vector()
            && Layout(l.pre, l1.before + l1.since, l1.block, [], l1.rest).Vector()
               == l.pre + (l.Options() + ["--"]) + (l.block + l.rest[1..])
            && (l.block == [] ==> l.Vector() == l.pre + (l.Options() + ["--"]) + (l.block + l.rest[1..]))
  {
    assert l.rest == ["--"] + l.rest[1..];
  }

  lemma RotateConcat(argv: seq<string>, front: seq<string>, block: seq<string>, since: seq<string>, rest: seq<string>)
    requires argv == front + block + since + rest
    ensures Rotate(argv, |front|, |front| + |block|, |front| + |block| + |since|) == front + since + block + rest
  {
  }

  lemma DashesRotate(w: World, l: Layout)
    requires Laid(w, l) && l.rest != [] && l.rest[0] == "--" && l.block != []
    ensures InRange(w.st, w.argv) && w.st.optind < |w.argv|
    ensures var first := |l.pre| + |l.before|; var last := first + |l.block|; var optind := last + |l.since| + 1;
            optind <= |w.argv| && EndAtDashes(w).argv == Rotate(w.argv, first, last, optind)
            && EndAtDashes(w).st.first == first + (optind - last)
  {
  }

  lemma DashesWithBlock(w: World, l: Layout)
    requires Laid(w, l) && l.rest != [] && l.rest[0] == "--" && l.block != []
    ensures InRange(w.st, w.argv) && w.st.optind < |w.argv|
    ensures EndAtDashes(w).argv == l.pre + (l.Options() + ["--"]) + (l.block + l.rest[1..])
    ensures EndAtDashes(w).st.first == |l.pre| + |l.Options()| + 1
  {
    DashesRotate(w, l);
    DashesRotated(w.argv, l.pre, l.before, l.block, l.since, l.rest);
  }

  lemma DashesRotated(argv: seq<string>, pre: seq<string>, before: seq<string>, block: seq<string>, since: seq<string>,
                      rest: seq<string>)
    requires argv == pre + before + block + since + rest && rest != [] && rest[0] == "--"
    ensures var first := |pre| + |before|; var last := first + |block|; var optind := last + |since| + 1;
            optind <= |argv|
            && Rotate(argv, first, last, optind) == pre + ((before + since) + ["--"]) + (block + rest[1..])
  {
    var front, d, r := pre + before, since + ["--"], rest[1..];
    assert argv == front + block + d + r by {
      assert rest == ["--"] + r;
      Shift(front + block, since, ["--"], r);
    }
    RotateConcat(argv, front, block, d, r);
    Reassociate(pre, before, since, ["--"], block, r);
  }

  lemma Shift(a: seq<string>, b: seq<string>, c: seq<string>, d: seq<string>)
    ensures a + b + (c + d) == a + (b + c) + d
  {
  }

  lemma Reassociate(a: seq<string>, b: seq<string>, c: seq<string>, d: seq<string>, e: seq<string>, f: seq<string>)
    ensures (a + b) + (c + d) + e + f == a + ((b + c) + d) + (e + f)
  {
  }

  lemma DashesWorld(w: World, l: Layout)
    requires Laid(w, l) && l.rest != [] && l.rest[0] == "--"
    ensures InRange(w.st, w.argv) && w.st.optind < |w.argv|
    ensures var e := EndAtDashes(w);
            e.argv == l.pre + (l.Options() + ["--"]) + (l.block + l.rest[1..])
            && e.st.first == |l.pre| + |l.Options()| + 1 && e.st.last == e.st.optind == |e.argv|
  {
    if l.block == [] {
      DashesVector(l);
    } else {
      DashesWithBlock(w, l);
    }
  }

  lemma DashesInLayout(cfg: Config, w: World, l: Layout)
    requires Laid(w, l) && w.st.nextchar == "" && l.rest != [] && l.rest[0] == "--"
    ensures InRange(w.st, w.argv) && AtElement(cfg, w).report == Plain(DONE)
    ensures Ended(AtElement(cfg, w).world, l.pre, l.Options() + ["--"], l.block + l.rest[1..])
  {
    DashesWorld(w, l);
    assert w.argv[w.st.optind] == l.rest[0];
  }

  // ---------------------------------------------------------------- one call against the in-order parse

  /** A call that leaves layout l1 has done the first step of the parse p. */
  ghost predicate Steps(cfg: Config, c: Called, l: Layout, p: Parsed, l1: Layout) {
    Laid(c.world, l1) && l1.pre == l.pre
    && var q := Parse(cfg, c.world.st.ordering, l1.rest, c.world.st.nextchar);
       p.reports == [c.report] + q.reports
       && l.Options() + p.options == l1.Options() + q.options
       && l.block + p.others == l1.block + q.others
  }

  lemma OptionInLayout(cfg: Config, w: World, l: Layout) returns (l1: Layout)
    requires Laid(w, l) && OptionFirst(l.rest, w.st.nextchar) && NoOptionIsDone(cfg)
    ensures InRange(w.st, w.argv) && w.st.optind < |w.argv| && OptionFirst(w.argv[w.st.optind..], w.st.nextchar)
    ensures var c, p := AtOption(cfg, w), Parse(cfg, w.st.ordering, l.rest, w.st.nextchar);
            c.report.code != DONE && Steps(cfg, c, l, p, l1)
            && Unread(l1.rest, c.world.st.nextchar) < Unread(l.rest, w.st.nextchar)
  {
    RestOfLayout(w, l);
    ScanReadsOn(cfg, l.rest, w.st.nextchar);
    l1 := OptionTaken(l, ScanOption(cfg, l.rest, w.st.nextchar).consumed);
    OptionLaid(cfg, w, l);
    OptionParsed(cfg, w.st.ordering, l, w.st.nextchar);
  }

  function OptionTaken(l: Layout, n: nat): Layout
    requires n <= |l.rest|
  {
    l.(since := l.since + l.rest[..n], rest := l.rest[n..])
  }

  lemma OptionLaid(cfg: Config, w: World, l: Layout)
    requires Laid(w, l) && OptionFirst(l.rest, w.st.nextchar)
    ensures InRange(w.st, w.argv) && w.st.optind < |w.argv| && w.argv[w.st.optind..] == l.rest
    ensures Laid(AtOption(cfg, w).world, OptionTaken(l, ScanOption(cfg, l.rest, w.st.nextchar).consumed))
  {
    RestOfLayout(w, l);
    Advance(cfg, l.rest, w.st.nextchar);
    OptionVector(l, ScanOption(cfg, l.rest, w.st.nextchar).consumed);
  }

  lemma OptionParsed(cfg: Config, ordering: Ordering, l: Layout, next: string)
    requires OptionFirst(l.rest, next)
    ensures var r := ScanOption(cfg, l.rest, next);
            var l1 := OptionTaken(l, r.consumed);
            (r.next != "" ==> OptionFirst(l1.rest, r.next))
            && var p, q := Parse(cfg, ordering, l.rest, next), Parse(cfg, ordering, l1.rest, r.next);
               p.reports == [r.report] + q.reports && p.others == q.others
               && l.Options() + p.options == l1.Options() + q.options
  {
    var r := ScanOption(cfg, l.rest, next);
    Advance(cfg, l.rest, next);
    Shift(l.before, l.since, l.rest[..r.consumed], Parse(cfg, ordering, l.rest[r.consumed..], r.next).options);
  }

  lemma OptionVector(l: Layout, n: nat)
    requires n <= |l.rest|
    ensures l.(since := l.since + l.rest[..n], rest := l.rest[n..]).Vector() == l.Vector()
  {
    assert l.rest == l.rest[..n] + l.rest[n..];
  }

  /** Nothing is left to move: either no exchange is pending or there is nothing to exchange with. */
  ghost predicate Settled(w: World, l: Layout) {
    w.st.ordering == Permute ==> l.since == [] && (l.rest != [] ==> !IsNonOption(l.rest[0]))
  }

  lemma EndOfVector(cfg: Config, w: World, l: Layout)
    requires Laid(w, l) && Settled(w, l) && w.st.nextchar == "" && l.rest == []
    ensures InRange(w.st, w.argv) && AtElement(cfg, w).report == Plain(DONE)
    ensures Ended(AtElement(cfg, w).world, l.pre, l.Options(), l.block)
  {
  }

  lemma NonOptionReported(cfg: Config, w: World, l: Layout) returns (l1: Layout)
    requires Laid(w, l) && w.st.nextchar == "" && w.st.ordering == ReturnInOrder
    requires l.rest != [] && IsNonOption(l.rest[0]) && NoOptionIsDone(cfg)
    ensures InRange(w.st, w.argv)
    ensures Steps(cfg, AtElement(cfg, w), l, Parse(cfg, w.st.ordering, l.rest, ""), l1)
    ensures AtElement(cfg, w).report.code != DONE && AtElement(cfg, w).world.st.nextchar == ""
    ensures Unread(l1.rest, "") < Unread(l.rest, "")
  {
    RestOfLayout(w, l);
    assert w.argv[w.st.optind] == l.rest[0];
    l1 := l.(since := l.since + l.rest[..1], rest := l.rest[1..]);
    OptionVector(l, 1);
    assert l.rest[..1] == [l.rest[0]];
    Shift(l.before, l.since, [l.rest[0]], Parse(cfg, w.st.ordering, l.rest[1..], "").options);
  }

  lemma RequireOrderStops(cfg: Config, w: World, l: Layout)
    requires Laid(w, l) && w.st.nextchar == "" && w.st.ordering == RequireOrder
    requires l.rest != [] && IsNonOption(l.rest[0])
    ensures InRange(w.st, w.argv) && AtElement(cfg, w).report == Plain(DONE)
    ensures Ended(AtElement(cfg, w).world, l.pre, l.Options(), l.block + l.rest)
  {
    assert w.argv[w.st.optind] == l.rest[0];
  }

  /** The element step agrees with the in-order parse: it ends where the parse ends, or does its first step. */
  lemma ElementStep(cfg: Config, w: World, l: Layout) returns (l1: Layout)
    requires Laid(w, l) && Settled(w, l) && w.st.nextchar == "" && NoOptionIsDone(cfg)
    ensures InRange(w.st, w.argv)
    ensures var c, p := AtElement(cfg, w), Parse(cfg, w.st.ordering, l.rest, "");
            if c.report.code == DONE then
              p.reports == [] && Ended(c.world, l.pre, l.Options() + p.options, l.block + p.others)
            else Steps(cfg, c, l, p, l1) && Unread(l1.rest, c.world.st.nextchar) < Unread(l.rest, "")
  {
    l1 := l;
    if l.rest == [] {
      EndOfVector(cfg, w, l);
      assert l.Options() + [] == l.Options() && l.block + [] == l.block;
    } else if l.rest[0] == "--" {
      DashesInLayout(cfg, w, l);
    } else if IsNonOption(l.rest[0]) && w.st.ordering == RequireOrder {
      RequireOrderStops(cfg, w, l);
      assert l.Options() + [] == l.Options();
    } else if IsNonOption(l.rest[0]) {
      l1 := NonOptionReported(cfg, w, l);
    } else {
      l1 := OptionInLayout(cfg, w, l);
      assert w.argv[w.st.optind] == l.rest[0];
    }
  }

  /** Where a caller's state stands: a fresh one at the front of the vector, another in some layout. */
  ghost predicate Stands(cfg: Config, st: State, argv: seq<string>, l: Layout) {
    Laid(World(Begin(cfg, st), argv), l)
  }

  lemma TidyThenParse(cfg: Config, l: Layout)
    ensures var p, q := Parse(cfg, Permute, l.rest, ""), Parse(cfg, Permute, Tidied(l).rest, "");
            p.reports == q.reports && l.Options() + p.options == Tidied(l).Options() + q.options
            && l.block + p.others == Tidied(l).block + q.others
  {
    ParseSkips(cfg, l.rest);
    var k := SkipNonOptions(l.rest, 0);
    Associate(l.block, l.rest[..k], Parse(cfg, Permute, l.rest[k..], "").others);
    OptionsKept(l);
  }

  lemma OptionsKept(l: Layout)
    ensures Tidied(l).Options() == l.Options()
  {
  }

  /** A call ends where the parse ends, or does its first step and reads on. */
  ghost predicate Agrees(cfg: Config, st: State, c: Called, l: Layout, l1: Layout)
    requires Begin(cfg, st).nextchar != "" ==> OptionFirst(l.rest, Begin(cfg, st).nextchar)
  {
    var st1 := Begin(cfg, st);
    var p := Parse(cfg, st1.ordering, l.rest, st1.nextchar);
    if c.report.code == DONE then
      p.reports == [] && Ended(c.world, l.pre, l.Options() + p.options, l.block + p.others)
    else Steps(cfg, c, l, p, l1) && Unread(l1.rest, c.world.st.nextchar) < Unread(l.rest, st1.nextchar)
  }

  lemma PermuteStep(cfg: Config, w: World, l: Layout) returns (l1: Layout)
    requires Laid(w, l) && w.st.ordering == Permute && w.st.nextchar == "" && NoOptionIsDone(cfg)
    ensures InRange(w.st, w.argv)
    ensures var c, p := AtElement(cfg, Tidy(w)), Parse(cfg, Permute, l.rest, "");
            if c.report.code == DONE then
              p.reports == [] && Ended(c.world, l.pre, l.Options() + p.options, l.block + p.others)
            else Steps(cfg, c, l, p, l1) && Unread(l1.rest, c.world.st.nextchar) < Unread(l.rest, "")
  {
    TidyLayout(w, l);
    TidyThenParse(cfg, l);
    l1 := ElementStep(cfg, Tidy(w), Tidied(l));
    WeightOfTail(l.rest, SkipNonOptions(l.rest, 0));
  }

  /** One call, from any state, agrees with the in-order parse of what is unread. */
  lemma CallStep(cfg: Config, st: State, argv: seq<string>, l: Layout) returns (l1: Layout)
    requires Stands(cfg, st, argv, l) && NoOptionIsDone(cfg)
    ensures Callable(cfg, st, argv) && Agrees(cfg, st, Call(cfg, st, argv), l, l1)
  {
    var st1 := Begin(cfg, st);
    var w := World(st1, argv);
    RestOfLayout(w, l);
    if st1.nextchar != "" {
      l1 := OptionInLayout(cfg, w, l);
    } else if st1.ordering != Permute {
      l1 := ElementStep(cfg, w, l);
    } else {
      l1 := PermuteStep(cfg, w, l);
    }
  }

  // ---------------------------------------------------------------- whole runs

  // What one call may do, as a relation: runs are defined over any such relation.
  type StepRelation = (State, seq<string>, Called) -> bool

  ghost function ParserStep(cfg: Config): StepRelation {
    (st: State, argv: seq<string>, c: Called) => Callable(cfg, st, argv) && c == Call(cfg, st, argv)
  }

  /** The calls from a state up to and including the first that reports the end. */
  ghost predicate IsRun(step: StepRelation, st: State, argv: seq<string>, calls: seq<Called>)
    decreases |calls|
  {
    calls != [] && step(st, argv, calls[0])
    && if calls[0].report.code == DONE then |calls| == 1
       else IsRun(step, calls[0].world.st, calls[0].world.argv, calls[1..])
  }

  /** Every step agrees with the in-order parse. */
  ghost predicate StepsAgree(cfg: Config, step: StepRelation) {
    forall st: State, argv: seq<string>, l: Layout, c: Called {:trigger step(st, argv, c), Stands(cfg, st, argv, l)} ::
      Stands(cfg, st, argv, l) && step(st, argv, c) ==> exists l1: Layout :: Agrees(cfg, st, c, l, l1)
  }

  lemma ParserStepsAgree(cfg: Config)
    requires NoOptionIsDone(cfg)
    ensures StepsAgree(cfg, ParserStep(cfg))
  {
    forall st: State, argv: seq<string>, l: Layout, c: Called | Stands(cfg, st, argv, l) && ParserStep(cfg)(st, argv, c)
      ensures exists l1: Layout :: Agrees(cfg, st, c, l, l1)
    {
      var l1 := CallStep(cfg, st, argv, l);
    }
  }

  function ReportsOf(calls: seq<Called>): seq<Report> {
    if |calls| <= 1 then [] else [calls[0].report] + ReportsOf(calls[1..])
  }

  lemma BeginAgain(cfg: Config, st: State)
    requires st.initialized && st.optind > 0
    ensures Begin(cfg, st) == st.(optarg := None)
  {
  }

  lemma SameEnd(w: World, l: Layout, l1: Layout, p: Parsed, q: Parsed)
    requires l1.pre == l.pre && l.Options() + p.options == l1.Options() + q.options
    requires l.block + p.others == l1.block + q.others
    requires Ended(w, l1.pre, l1.Options() + q.options, l1.block + q.others)
    ensures Ended(w, l.pre, l.Options() + p.options, l.block + p.others)
  {
  }

  /** The last world of a run agrees with the parse p made from layout l. */
  ghost predicate RunAgrees(calls: seq<Called>, l: Layout, p: Parsed) {
    calls != [] && ReportsOf(calls) == p.reports
    && Ended(calls[|calls| - 1].world, l.pre, l.Options() + p.options, l.block + p.others)
  }

  lemma ExtendRun(cfg: Config, c: Called, more: seq<Called>, l: Layout, l1: Layout, p: Parsed, q: Parsed)
    requires RunAgrees(more, l1, q)
    requires l1.pre == l.pre && p.reports == [c.report] + q.reports
    requires l.Options() + p.options == l1.Options() + q.options && l.block + p.others == l1.block + q.others
    ensures RunAgrees([c] + more, l, p)
  {
    assert ([c] + more)[1..] == more;
    SameEnd(more[|more| - 1].world, l, l1, p, q);
  }

  /** A run from any state ends where the in-order parse of its unread elements ends. */
  lemma {:induction false} RunFollowsParse(cfg: Config, step: StepRelation, st: State, argv: seq<string>, l: Layout,
                                           calls: seq<Called>)
    requires StepsAgree(cfg, step) && Stands(cfg, st, argv, l) && IsRun(step, st, argv, calls)
    ensures RunAgrees(calls, l, Parse(cfg, Begin(cfg, st).ordering, l.rest, Begin(cfg, st).nextchar))
    decreases |calls|
  {
    var c := calls[0];
    assert step(st, argv, c);
    var l1: Layout :| Agrees(cfg, st, c, l, l1);
    if c.report.code != DONE {
      BeginAgain(cfg, c.world.st);
      RunFollowsParse(cfg, step, c.world.st, c.world.argv, l1, calls[1..]);
      FirstThenRun(cfg, st, c, calls[1..], l, l1);
      HeadAndTail(calls);
    }
  }

  lemma FirstThenRun(cfg: Config, st: State, c: Called, more: seq<Called>, l: Layout, l1: Layout)
    requires Begin(cfg, st).nextchar != "" ==> OptionFirst(l.rest, Begin(cfg, st).nextchar)
    requires Agrees(cfg, st, c, l, l1) && c.report.code != DONE
    requires RunAgrees(more, l1, Parse(cfg, c.world.st.ordering, l1.rest, c.world.st.nextchar))
    ensures RunAgrees([c] + more, l, Parse(cfg, Begin(cfg, st).ordering, l.rest, Begin(cfg, st).nextchar))
  {
    var p := Parse(cfg, Begin(cfg, st).ordering, l.rest, Begin(cfg, st).nextchar);
    var q := Parse(cfg, c.world.st.ordering, l1.rest, c.world.st.nextchar);
    ExtendRun(cfg, c, more, l, l1, p, q);
  }

  /** Every run ends: the unread characters decrease with each call that does not report the end. */
  lemma {:induction false} RunEnds(cfg: Config, st: State, argv: seq<string>, l: Layout) returns (calls: seq<Called>)
    requires Stands(cfg, st, argv, l) && NoOptionIsDone(cfg)
    ensures IsRun(ParserStep(cfg), st, argv, calls)
    decreases Unread(l.rest, Begin(cfg, st).nextchar)
  {
    var l1 := CallStep(cfg, st, argv, l);
    var c := Call(cfg, st, argv);
    if c.report.code == DONE {
      calls := [c];
    } else {
      BeginAgain(cfg, c.world.st);
      var more := RunEnds(cfg, c.world.st, c.world.argv, l1);
      calls := [c] + more;
      assert calls[1..] == more;
    }
  }

  predicate Fresh(st: State) {
    st.optind == 0 || !st.initialized
  }

  function Start(st: State): nat {
    if st.optind == 0 then 1 else st.optind
  }

  lemma FreshStands(cfg: Config, st: State, argv: seq<string>)
    requires Fresh(st) && Start(st) <= |argv|
    ensures Stands(cfg, st, argv, Layout(argv[..Start(st)], [], [], [], argv[Start(st)..]))
  {
    FreshVector(argv[..Start(st)], argv[Start(st)..]);
    TwoParts(argv, Start(st));
  }

  lemma FreshVector(pre: seq<string>, rest: seq<string>)
    ensures Layout(pre, [], [], [], rest).Vector() == pre + rest
  {
    assert pre + [] == pre;
  }

  lemma TwoParts(argv: seq<string>, s: nat)
    requires s <= |argv|
    ensures argv[..s] + argv[s..] == argv && |argv[..s]| == s
  {
  }

  lemma {:induction false} OnlyPermuteMoves(cfg: Config, ordering: Ordering, rest: seq<string>, next: string)
    requires ordering != Permute && (next != "" ==> OptionFirst(rest, next))
    ensures var p := Parse(cfg, ordering, rest, next); p.options + p.others == rest
    decreases Unread(rest, next)
  {
    if rest == [] || (IsNonOption(rest[0]) && ordering == RequireOrder) {
    } else if rest[0] == "--" {
      assert ["--"] + rest[1..] == rest;
    } else if IsNonOption(rest[0]) {
      var p := Parse(cfg, ordering, rest[1..], "");
      OnlyPermuteMoves(cfg, ordering, rest[1..], "");
      FrontStays(rest, 1, p.options, p.others);
      assert [rest[0]] == rest[..1];
      assert Parse(cfg, ordering, rest, next).options == rest[..1] + p.options;
    } else {
      ScanReadsOn(cfg, rest, next);
      Advance(cfg, rest, next);
      var r := ScanOption(cfg, rest, next);
      var p := Parse(cfg, ordering, rest[r.consumed..], r.next);
      OnlyPermuteMoves(cfg, ordering, rest[r.consumed..], r.next);
      FrontStays(rest, r.consumed, p.options, p.others);
      assert Parse(cfg, ordering, rest, next).options == rest[..r.consumed] + p.options;
    }
  }

  lemma FrontStays(rest: seq<string>, n: nat, options: seq<string>, others: seq<string>)
    requires n <= |rest| && options + others == rest[n..]
    ensures rest[..n] + options + others == rest
  {
    assert rest[..n] + options + others == rest[..n] + (options + others);
  }

  /** From a fresh state, calling until the first -1 reports what the in-order parse reports and leaves
      the vector stably partitioned, with optind at the first of the others.  Under the other two
      orderings nothing moves. */
  lemma WholeRun(cfg: Config, st: State, argv: seq<string>, calls: seq<Called>)
    requires Fresh(st) && Start(st) <= |argv| && NoOptionIsDone(cfg) && IsRun(ParserStep(cfg), st, argv, calls)
    ensures var s := Start(st);
            var p := Parse(cfg, OrderingOf(cfg), argv[s..], "");
            var w := calls[|calls| - 1].world;
            ReportsOf(calls) == p.reports
            && w.argv == argv[..s] + p.options + p.others && w.st.optind == s + |p.options|
            && StablePartition(argv[s..], p.options, p.others) && multiset(w.argv) == multiset(argv)
            && (OrderingOf(cfg) != Permute ==> w.argv == argv)
  {
    var s := Start(st);
    var l := Layout(argv[..s], [], [], [], argv[s..]);
    FreshStands(cfg, st, argv);
    ParserStepsAgree(cfg);
    RunFollowsParse(cfg, ParserStep(cfg), st, argv, l, calls);
    var p := Parse(cfg, OrderingOf(cfg), argv[s..], "");
    FromEmptyLayout(calls[|calls| - 1].world, l, p);
    ParseIsPartition(cfg, OrderingOf(cfg), argv[s..], "");
    PermutedTail(argv, s, p.options, p.others);
    if OrderingOf(cfg) != Permute {
      OnlyPermuteMoves(cfg, OrderingOf(cfg), argv[s..], "");
    }
  }

  lemma FromEmptyLayout(w: World, l: Layout, p: Parsed)
    requires l.before == [] && l.since == [] && l.block == []
    requires Ended(w, l.pre, l.Options() + p.options, l.block + p.others)
    ensures w.argv == l.pre + p.options + p.others && w.st.optind == |l.pre| + |p.options|
  {
    assert l.Options() + p.options == p.options && l.block + p.others == p.others;
  }

  lemma PermutedTail(argv: seq<string>, s: nat, options: seq<string>, others: seq<string>)
    requires s <= |argv| && StablePartition(argv[s..], options, others)
    ensures multiset(argv[..s] + options + others) == multiset(argv)
    ensures options + others == argv[s..] ==> argv[..s] + options + others == argv
  {
    PartitionIsPermutation(argv[s..], options, others);
    assert argv == argv[..s] + argv[s..];
    assert multiset(argv) == multiset(argv[..s]) + multiset(argv[s..]);
    Associate(argv[..s], options, others);
  }

  /** What holds at every call boundary: the block of non-options lies before optind, inside the vector. */
  ghost predicate CallInvariant(st: State, argv: seq<string>) {
    InRange(st, argv) && forall j :: st.first <= j < st.last ==> IsNonOption(argv[j])
  }

  lemma LaidKeepsInvariant(w: World, l: Layout)
    requires Laid(w, l)
    ensures CallInvariant(w.st, w.argv)
  {
    forall j | w.st.first <= j < w.st.last ensures IsNonOption(w.argv[j]) {
      assert w.argv[j] == l.block[j - w.st.first];
    }
  }

  lemma {:induction false} RunKeepsInvariant(cfg: Config, step: StepRelation, st: State, argv: seq<string>, l: Layout,
                                             calls: seq<Called>, i: nat)
    requires StepsAgree(cfg, step) && Stands(cfg, st, argv, l) && IsRun(step, st, argv, calls)
    requires i < |calls| - 1
    ensures CallInvariant(calls[i].world.st, calls[i].world.argv)
    decreases i
  {
    var c := calls[0];
    var l1 := CallKeepsInvariant(cfg, step, st, argv, l, c);
    if i > 0 {
      RunKeepsInvariant(cfg, step, c.world.st, c.world.argv, l1, calls[1..], i - 1);
    }
  }

  lemma CallKeepsInvariant(cfg: Config, step: StepRelation, st: State, argv: seq<string>, l: Layout, c: Called)
    returns (l1: Layout)
    requires StepsAgree(cfg, step) && Stands(cfg, st, argv, l) && step(st, argv, c) && c.report.code != DONE
    ensures CallInvariant(c.world.st, c.world.argv) && Stands(cfg, c.world.st, c.world.argv, l1)
  {
    l1 :| Agrees(cfg, st, c, l, l1);
    LaidKeepsInvariant(c.world, l1);
    BeginAgain(cfg, c.world.st);
  }
}
