/**
  One call of the permuting option parser as a function on values: the state carried between calls,
  the argument vector, and what the call reports.  A C string is the sequence of characters before
  its terminator, and a null or exhausted `nextchar` is the empty string.
 */
module GetoptSpec {
  import opened Sequences
  import opened Wrappers

  datatype Ordering = RequireOrder | Permute | ReturnInOrder

  // `flag` names the variable a long option stores its value in, if it has one.
  datatype LongOption = LongOption(name: string, hasArg: int, flag: Option<nat>, val: int)

  datatype Config = Config(optstring: string, longopts: Option<seq<LongOption>>, longOnly: bool, posixlyCorrect: bool)

  const DONE: int := -1
  const NON_OPTION: int := 1

  /** What a call reports besides its effect on the argument vector.  A field the call leaves alone is None. */
  datatype Report = Report(code: int, optarg: Option<string>, optopt: Option<int>, longIndex: Option<nat>,
                           stored: Option<(nat, int)>)

  function Plain(code: int): Report { Report(code, None, None, None, None) }
  function Complaint(code: int, optopt: int): Report { Report(code, None, Some(optopt), None, None) }

  /** The scan of one option: its report, the elements it uses up, and the rest of a cluster. */
  datatype Scanned = Scanned(report: Report, consumed: nat, next: string)

  // ---------------------------------------------------------------- strings

  function CharAt(s: string, i: nat): char {
    if i < |s| then s[i] else '\0'
  }

  predicate IsNonOption(s: string) {
    CharAt(s, 0) != '-' || |s| < 2
  }

  function Body(optstring: string): string {
    if CharAt(optstring, 0) == '-' || CharAt(optstring, 0) == '+' then optstring[1..] else optstring
  }

  function OrderingOf(cfg: Config): Ordering {
    if CharAt(cfg.optstring, 0) == '-' then ReturnInOrder
    else if CharAt(cfg.optstring, 0) == '+' || cfg.posixlyCorrect then RequireOrder
    else Permute
  }

  function MissingArgument(cfg: Config): int {
    if CharAt(Body(cfg.optstring), 0) == ':' then ':' as int else '?' as int
  }

  /** The code -1 means that the options have ended, so no option may report it.  An option with a flag stores its
      value there and reports 0. */
  predicate NoOptionIsDone(cfg: Config) {
    cfg.longopts.Some? ==>
      forall i :: 0 <= i < |cfg.longopts.value| ==>
        cfg.longopts.value[i].flag.Some? || cfg.longopts.value[i].val != DONE
  }

  // ---------------------------------------------------------------- long options

  predicate Matches(o: LongOption, name: string, exact: bool) {
    if exact then o.name == name else name <= o.name
  }

  function FirstMatch(opts: seq<LongOption>, name: string, exact: bool, i: nat): (k: nat)
    requires i <= |opts|
    ensures i <= k <= |opts|
    decreases |opts| - i
  {
    if i == |opts| || Matches(opts[i], name, exact) then i else FirstMatch(opts, name, exact, i + 1)
  }

  lemma {:induction false} FirstMatchIs(opts: seq<LongOption>, name: string, exact: bool, i: nat, k: nat)
    requires i <= k <= |opts| && (forall j :: i <= j < k ==> !Matches(opts[j], name, exact))
    requires k < |opts| ==> Matches(opts[k], name, exact)
    ensures FirstMatch(opts, name, exact, i) == k
    decreases k - i
  {
    if i < k {
      FirstMatchIs(opts, name, exact, i + 1, k);
    }
  }

  /** Two abbreviations of one name clash unless the options are interchangeable. */
  predicate Clashes(o: LongOption, p: LongOption, longOnly: bool) {
    longOnly || o.hasArg != p.hasArg || o.flag != p.flag || o.val != p.val
  }

  predicate Ambiguous(opts: seq<LongOption>, name: string, found: nat, longOnly: bool)
    requires found < |opts|
  {
    exists j :: found < j < |opts| && Matches(opts[j], name, false) && Clashes(opts[found], opts[j], longOnly)
  }

  datatype Lookup = NotFound | AmbiguousName | Found(index: nat)

  function LookUp(opts: seq<LongOption>, name: string, longOnly: bool): (r: Lookup)
    ensures r.Found? ==> r.index < |opts|
  {
    var exact := FirstMatch(opts, name, true, 0);
    if exact < |opts| then Found(exact)
    else
      var prefix := FirstMatch(opts, name, false, 0);
      if prefix == |opts| then NotFound
      else if Ambiguous(opts, name, prefix, longOnly) then AmbiguousName
      else Found(prefix)
  }

  /** A long option spelled `text`, met in element k of the unread ones.  None asks the caller to read
      the element as short options instead. */
  function ScanLong(cfg: Config, rest: seq<string>, k: nat, text: string, longOnly: bool): (r: Option<Scanned>)
    requires cfg.longopts.Some? && k < |rest|
    requires longOnly && CharAt(rest[k], 1) != '-' ==> text != ""
    ensures !longOnly || CharAt(rest[k], 1) == '-' ==> r.Some?
    ensures r.Some? ==> k + 1 <= r.value.consumed <= |rest| && r.value.next == ""
    ensures r.Some? && NoOptionIsDone(cfg) ==> r.value.report.code != DONE
  {
    var opts := cfg.longopts.value;
    var end := IndexOf(text, '=');
    match LookUp(opts, text[..end], longOnly)
    case AmbiguousName => Some(Scanned(Complaint('?' as int, 0), k + 1, ""))
    case NotFound =>
      if !longOnly || CharAt(rest[k], 1) == '-' || IndexOf(Body(cfg.optstring), text[0]) == |Body(cfg.optstring)| then
        Some(Scanned(Complaint('?' as int, 0), k + 1, ""))
      else None
    case Found(i) =>
      var o := opts[i];
      if end < |text| && o.hasArg == 0 then Some(Scanned(Complaint('?' as int, o.val), k + 1, ""))
      else if end < |text| then Some(Scanned(Chosen(o, i, Some(text[end + 1..])), k + 1, ""))
      else if o.hasArg != 1 then Some(Scanned(Chosen(o, i, None), k + 1, ""))
      else if k + 1 < |rest| then Some(Scanned(Chosen(o, i, Some(rest[k + 1])), k + 2, ""))
      else Some(Scanned(Complaint(MissingArgument(cfg), o.val), k + 1, ""))
  }

  function Chosen(o: LongOption, index: nat, optarg: Option<string>): Report {
    if o.flag.Some? then Report(0, optarg, None, Some(index), Some((o.flag.value, o.val)))
    else Report(o.val, optarg, None, Some(index), None)
  }

  /** The long option spelled `text` is found, has no flag and the value -1 of its own, and has its argument. */
  predicate ChoosesDone(cfg: Config, rest: seq<string>, k: nat, text: string, longOnly: bool) {
    cfg.longopts.Some?
    && var opts, end := cfg.longopts.value, IndexOf(text, '=');
       var r := LookUp(opts, text[..end], longOnly);
       r.Found? && opts[r.index].flag.None? && opts[r.index].val == DONE
       && (end < |text| ==> opts[r.index].hasArg != 0)
       && (end == |text| && opts[r.index].hasArg == 1 ==> k + 1 < |rest|)
  }

  lemma LongReportsDone(cfg: Config, rest: seq<string>, k: nat, text: string, longOnly: bool)
    requires cfg.longopts.Some? && k < |rest| && (longOnly && CharAt(rest[k], 1) != '-' ==> text != "")
    ensures var r := ScanLong(cfg, rest, k, text, longOnly);
            r.Some? && r.value.report.code == DONE <==> ChoosesDone(cfg, rest, k, text, longOnly)
  {
  }

  // ---------------------------------------------------------------- short options

  /** The option letter c, found at t, with what its colons ask for: the rest of the element or the next element. */
  function ScanArgument(cfg: Config, rest: seq<string>, c: char, more: string, t: nat): (r: Scanned)
    requires rest != []
    ensures r.consumed <= |rest| && (r.next == "" <==> r.consumed >= 1) && |r.next| <= |more|
    ensures r.report.code == c as int || r.report.code == MissingArgument(cfg)
  {
    var letters := Body(cfg.optstring);
    if CharAt(letters, t + 1) != ':' then Scanned(Plain(c as int), if more == "" then 1 else 0, more)
    else if more != "" then Scanned(Report(c as int, Some(more), None, None, None), 1, "")
    else if CharAt(letters, t + 2) == ':' then Scanned(Plain(c as int), 1, "")
    else if |rest| == 1 then Scanned(Complaint(MissingArgument(cfg), c as int), 1, "")
    else Scanned(Report(c as int, Some(rest[1]), None, None, None), 2, "")
  }

  /** The option whose letter is the first character of `next`. */
  function ScanShort(cfg: Config, rest: seq<string>, next: string): (r: Scanned)
    requires rest != [] && next != ""
    ensures r.consumed <= |rest| && (r.next == "" <==> r.consumed >= 1) && (r.next != "" ==> |r.next| < |next|)
    ensures NoOptionIsDone(cfg) ==> r.report.code != DONE
  {
    var c, more, letters := next[0], next[1..], Body(cfg.optstring);
    var ends := if more == "" then 1 else 0;
    var t := IndexOf(letters, c);
    if t == |letters| || c == ':' || c == ';' then Scanned(Complaint('?' as int, c as int), ends, more)
    else if c == 'W' && CharAt(letters, t + 1) == ';' && cfg.longopts.Some? then
      if more == "" && |rest| == 1 then Scanned(Complaint(MissingArgument(cfg), c as int), 1, "")
      else
        ScanLong(cfg, rest, ends, if more == "" then rest[1] else more, false).value
    else ScanArgument(cfg, rest, c, more, t)
  }

  predicate OptionFirst(rest: seq<string>, next: string) {
    rest != [] && !IsNonOption(rest[0]) && rest[0] != "--" && |next| < |rest[0]|
  }

  /** The element read as a long option, if it is one. */
  function ScanAsLong(cfg: Config, rest: seq<string>): (r: Option<Scanned>)
    requires OptionFirst(rest, "")
    ensures r.Some? ==> 1 <= r.value.consumed <= |rest| && r.value.next == ""
    ensures r.Some? && NoOptionIsDone(cfg) ==> r.value.report.code != DONE
  {
    var e := rest[0];
    if cfg.longopts.Some? && e[1] == '-' then ScanLong(cfg, rest, 0, e[2..], cfg.longOnly)
    else if cfg.longopts.Some? && cfg.longOnly
      && (|e| > 2 || IndexOf(Body(cfg.optstring), e[1]) == |Body(cfg.optstring)|) then
      ScanLong(cfg, rest, 0, e[1..], true)
    else None
  }

  /** The branch in which the source takes the value -1 of a long option for the absence of one, and reads on in
      letters, in the element that has become the current one. */
  predicate FallsThrough(cfg: Config, rest: seq<string>)
    requires OptionFirst(rest, "")
  {
    var e := rest[0];
    cfg.longOnly && e[1] != '-' && (|e| > 2 || IndexOf(Body(cfg.optstring), e[1]) == |Body(cfg.optstring)|)
    && ChoosesDone(cfg, rest, 0, e[1..], true)
  }

  /** It is the branch in which an option with one dash is reported as -1 here. */
  lemma FallsThroughExactly(cfg: Config, rest: seq<string>)
    requires OptionFirst(rest, "") && rest[0][1] != '-'
    ensures var r := ScanAsLong(cfg, rest);
            r.Some? && r.value.report.code == DONE <==> FallsThrough(cfg, rest)
  {
    if cfg.longopts.Some? && cfg.longOnly {
      LongReportsDone(cfg, rest, 0, rest[0][1..], true);
    }
  }

  /** An input: with a long option `name` of value -1 that takes no argument, `-name` is reported as -1, whatever
      follows, where the source reads on in the element after it. */
  lemma FallThroughInput(optstring: string, name: string, more: seq<string>)
    requires |name| > 1 && name[0] != '-' && '=' !in name
    ensures var cfg := Config(optstring, Some([LongOption(name, 0, None, DONE)]), true, false);
            OptionFirst(["-" + name] + more, "") && FallsThrough(cfg, ["-" + name] + more)
            && ScanOption(cfg, ["-" + name] + more, "") == Scanned(Report(DONE, None, None, Some(0), None), 1, "")
  {
    var cfg := Config(optstring, Some([LongOption(name, 0, None, DONE)]), true, false);
    var e := "-" + name;
    assert e[1..] == name;
    IndexIs(name, '=', |name|);
    assert name[..|name|] == name;
    assert FirstMatch(cfg.longopts.value, name, true, 0) == 0;
  }

  /** Every scan uses up at least a character, stays within the vector and never reports the end.
      `next` is what remains of a cluster begun earlier. */
  function ScanOption(cfg: Config, rest: seq<string>, next: string): (r: Scanned)
    requires OptionFirst(rest, next)
    ensures r.consumed <= |rest| && (r.next == "" <==> r.consumed >= 1)
    ensures r.next != "" ==> |r.next| < |rest[0]| - 1 && (next != "" ==> |r.next| < |next|)
    ensures NoOptionIsDone(cfg) ==> r.report.code != DONE
  {
    if next != "" then ScanShort(cfg, rest, next)
    else
      match ScanAsLong(cfg, rest)
      case Some(scanned) => scanned
      case None => ScanShort(cfg, rest, rest[0][1..])
  }

  // ---------------------------------------------------------------- one call

  datatype State = State(optind: nat, optopt: int, optarg: Option<string>, initialized: bool, nextchar: string,
                         ordering: Ordering, first: nat, last: nat)

  /** Where the element at k comes from when the block [last..optind) moves in front of [first..last). */
  function RotateSource(k: nat, first: nat, last: nat, optind: nat): (j: nat)
    requires first <= last <= optind
    ensures j < optind <==> k < optind
    ensures k >= optind ==> j == k
  {
    if k < first then k
    else if k < first + (optind - last) then k + (last - first)
    else if k < optind then k - (optind - last)
    else k
  }

  function Rotate<T>(argv: seq<T>, first: nat, last: nat, optind: nat): (r: seq<T>)
    requires first <= last <= optind <= |argv|
    ensures |r| == |argv|
  {
    seq(|argv|, k requires 0 <= k < |argv| => argv[RotateSource(k, first, last, optind)])
  }

  /** The rotated vector in blocks: everything outside [first..optind) stays where it was. */
  lemma RotateBlocks<T>(argv: seq<T>, first: nat, last: nat, optind: nat)
    requires first <= last <= optind <= |argv|
    ensures Rotate(argv, first, last, optind) == argv[..first] + argv[last..optind] + argv[first..last] + argv[optind..]
  {
  }

  /** The state and vector as a pair that the parts of a call pass on. */
  datatype World = World(st: State, argv: seq<string>)

  function Initialize(cfg: Config, st: State): State {
    var optind := if st.optind == 0 then 1 else st.optind;
    st.(optind := optind, first := optind, last := optind, nextchar := "", ordering := OrderingOf(cfg),
        initialized := true)
  }

  function Begin(cfg: Config, st: State): State {
    var st1 := st.(optarg := None);
    if st.optind == 0 || !st.initialized then Initialize(cfg, st1) else st1
  }

  predicate InRange(st: State, argv: seq<string>) {
    st.first <= st.last <= st.optind <= |argv|
  }

  /** A program that moves optind back drags the non-option block along. */
  function ClampBlock(st: State): State {
    var last := if st.last > st.optind then st.optind else st.last;
    st.(last := last, first := if st.first > st.optind then st.optind else st.first)
  }

  function Exchange(w: World): World
    requires InRange(w.st, w.argv)
  {
    World(w.st.(first := w.st.first + (w.st.optind - w.st.last), last := w.st.optind),
          Rotate(w.argv, w.st.first, w.st.last, w.st.optind))
  }

  function SkipNonOptions(argv: seq<string>, i: nat): (k: nat)
    requires i <= |argv|
    ensures i <= k <= |argv|
    ensures forall j :: i <= j < k ==> IsNonOption(argv[j])
    ensures k < |argv| ==> !IsNonOption(argv[k])
    decreases |argv| - i
  {
    if i < |argv| && IsNonOption(argv[i]) then SkipNonOptions(argv, i + 1) else i
  }

  /** Options seen since the last call move before the non-options. */
  function Gathered(w: World): (r: World)
    requires InRange(w.st, w.argv)
    ensures r.st.optind == w.st.optind && |r.argv| == |w.argv|
  {
    var st := w.st;
    if st.first != st.last && st.last != st.optind then Exchange(w)
    else if st.last != st.optind then w.(st := st.(first := st.optind))
    else w
  }

  /** Under Permute: after that, more non-options are skipped. */
  function Tidy(w: World): World
    requires InRange(w.st, w.argv)
  {
    var w1 := Gathered(w);
    var k := SkipNonOptions(w1.argv, w1.st.optind);
    w1.(st := w1.st.(optind := k, last := k))
  }

  /** Options and a `--` just passed move before the non-options. */
  function Joined(w: World): (r: World)
    requires InRange(w.st, w.argv)
    ensures r.st.optind == w.st.optind && |r.argv| == |w.argv|
  {
    var st := w.st;
    if st.first != st.last && st.last != st.optind then Exchange(w)
    else if st.first == st.last then w.(st := st.(first := st.optind))
    else w
  }

  function OnePassed(w: World): World {
    w.(st := w.st.(optind := w.st.optind + 1))
  }

  /** Everything has been looked at. */
  function AllSeen(w: World): World {
    w.(st := w.st.(last := |w.argv|, optind := |w.argv|))
  }

  /** At `--`: it joins the options and everything after it joins the non-options. */
  function EndAtDashes(w: World): World
    requires InRange(w.st, w.argv) && w.st.optind < |w.argv|
  {
    AllSeen(Joined(OnePassed(w)))
  }

  datatype Called = Called(world: World, report: Report)

  /** What happens once the call stands at optind with no cluster pending. */
  function AtElement(cfg: Config, w: World): Called
    requires InRange(w.st, w.argv) && w.st.nextchar == ""
  {
    var w1 := if w.st.optind < |w.argv| && w.argv[w.st.optind] == "--" then EndAtDashes(w) else w;
    var st := w1.st;
    if st.optind == |w.argv| then
      Called(w1.(st := if st.first != st.last then st.(optind := st.first) else st), Plain(DONE))
    else if IsNonOption(w1.argv[st.optind]) then
      if st.ordering == RequireOrder then Called(w1, Plain(DONE))
      else
        var arg := w1.argv[st.optind];
        Called(w1.(st := st.(optind := st.optind + 1, optarg := Some(arg))),
               Report(NON_OPTION, Some(arg), None, None, None))
    else AtOption(cfg, w1)
  }

  function AtOption(cfg: Config, w: World): Called
    requires w.st.optind < |w.argv| && OptionFirst(w.argv[w.st.optind..], w.st.nextchar)
  {
    var r := ScanOption(cfg, w.argv[w.st.optind..], w.st.nextchar);
    var st := w.st.(optind := w.st.optind + r.consumed, nextchar := r.next, optarg := r.report.optarg,
                    optopt := if r.report.optopt.Some? then r.report.optopt.value else w.st.optopt);
    Called(World(st, w.argv), r.report)
  }

  /** The states a caller may pass in: optind within the vector, and a pending cluster only where the
      previous call left one. */
  predicate Callable(cfg: Config, st: State, argv: seq<string>) {
    |argv| >= 1 && st.optind <= |argv|
    && (st.initialized && st.optind > 0 ==>
          st.first <= st.last
          && (st.nextchar != "" ==> st.optind < |argv| && OptionFirst(argv[st.optind..], st.nextchar)))
  }

  function Call(cfg: Config, st: State, argv: seq<string>): Called
    requires Callable(cfg, st, argv)
  {
    var st1 := Begin(cfg, st);
    if st1.nextchar != "" then AtOption(cfg, World(st1, argv))
    else
      var w := World(ClampBlock(st1), argv);
      AtElement(cfg, if st1.ordering == Permute then Tidy(w) else w)
  }
}
