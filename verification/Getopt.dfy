/**
  The option parser in place: the state record whose fields each call updates, and the argument
  vector whose elements it swaps.
 */
module Getopt {
  import opened GetoptSpec
  import opened Sequences
  import opened Wrappers

  class GetoptData {
    var optind: nat
    var optopt: int
    var optarg: Option<string>
    var initialized: bool
    var nextchar: string
    var ordering: Ordering
    var firstNonopt: nat
    var lastNonopt: nat

    function Value(): State
      reads this
    {
      State(optind, optopt, optarg, initialized, nextchar, ordering, firstNonopt, lastNonopt)
    }

    constructor ()
      ensures !initialized && optind == 1
    {
      optind, optopt, optarg := 1, '?' as int, None;
      initialized, nextchar, ordering := false, "", Permute;
      firstNonopt, lastNonopt := 0, 0;
    }

    /** Swaps the shorter of the two blocks to its final place until one of them is empty. */
    method Exchange(argv: array<string>)
      requires firstNonopt <= lastNonopt <= optind <= argv.Length
      modifies this`firstNonopt, this`lastNonopt, argv
      ensures World(Value(), argv[..]) == GetoptSpec.Exchange(World(old(Value()), old(argv[..])))
    {
      RotateInPlace(argv, firstNonopt, lastNonopt, optind);
      firstNonopt := firstNonopt + (optind - lastNonopt);
      lastNonopt := optind;
    }

    method Initialize(cfg: Config)
      modifies this
      ensures Value() == GetoptSpec.Initialize(cfg, old(Value()))
    {
      if optind == 0 {
        optind := 1;
      }
      firstNonopt, lastNonopt := optind, optind;
      nextchar := "";
      if CharAt(cfg.optstring, 0) == '-' {
        ordering := ReturnInOrder;
      } else if CharAt(cfg.optstring, 0) == '+' {
        ordering := RequireOrder;
      } else if cfg.posixlyCorrect {
        ordering := RequireOrder;
      } else {
        ordering := Permute;
      }
      initialized := true;
    }
  
    /** One call: the report, the new state and the new vector are those of the function on values. */
    method GetoptInternal(cfg: Config, argv: array<string>) returns (report: Report)
      requires argv.Length >= 1 ==> Callable(cfg, Value(), argv[..])
      modifies this, argv
      ensures argv.Length == 0 ==> report == Plain(DONE) && Value() == old(Value())
      ensures argv.Length >= 1 ==>
                Called(World(Value(), argv[..]), report) == Call(cfg, old(Value()), old(argv[..]))
    {
      if argv.Length < 1 {
        return Plain(DONE);
      }
      Begin(cfg);
      if nextchar == "" {
        report := NextElement(cfg, argv);
      } else {
        report := AtOption(cfg, argv);
      }
    }

    method Begin(cfg: Config)
      modifies this
      ensures Value() == GetoptSpec.Begin(cfg, old(Value()))
    {
      optarg := None;
      if optind == 0 || !initialized {
        Initialize(cfg);
      }
    }

    method Clamp()
      modifies this`firstNonopt, this`lastNonopt
      ensures Value() == ClampBlock(old(Value()))
    {
      if lastNonopt > optind {
        lastNonopt := optind;
      }
      if firstNonopt > optind {
        firstNonopt := optind;
      }
    }

    /** With no cluster pending: the block of non-options is put in order, and the next element read. */
    method NextElement(cfg: Config, argv: array<string>) returns (report: Report)
      requires nextchar == "" && optarg == None && InRange(ClampBlock(Value()), argv[..])
      modifies this, argv
      ensures var w := World(ClampBlock(old(Value())), old(argv[..]));
              Called(World(Value(), argv[..]), report)
              == GetoptSpec.AtElement(cfg, if old(ordering) == Permute then GetoptSpec.Tidy(w) else w)
    {
      Clamp();
      if ordering == Permute {
        Tidy(argv);
      }
      report := AtElement(cfg, argv);
    }

    method Gather(argv: array<string>)
      requires InRange(Value(), argv[..])
      modifies this`firstNonopt, this`lastNonopt, argv
      ensures World(Value(), argv[..]) == Gathered(World(old(Value()), old(argv[..])))
    {
      if firstNonopt != lastNonopt && lastNonopt != optind {
        Exchange(argv);
      } else if lastNonopt != optind {
        firstNonopt := optind;
      }
    }

    method Tidy(argv: array<string>)
      requires InRange(Value(), argv[..])
      modifies this`firstNonopt, this`lastNonopt, this`optind, argv
      ensures World(Value(), argv[..]) == GetoptSpec.Tidy(World(old(Value()), old(argv[..])))
    {
      Gather(argv);
      SkipForward(argv);
      lastNonopt := optind;
    }

    method SkipForward(argv: array<string>)
      requires optind <= argv.Length
      modifies this`optind
      ensures optind == SkipNonOptions(argv[..], old(optind))
    {
      while optind < argv.Length && IsNonOption(argv[optind])
        invariant old(optind) <= optind <= argv.Length
        invariant SkipNonOptions(argv[..], old(optind)) == SkipNonOptions(argv[..], optind)
      {
        optind := optind + 1;
      }
    }

    method PassOne(argv: array<string>, ghost w: World)
      requires World(Value(), argv[..]) == w
      modifies this`optind
      ensures World(Value(), argv[..]) == OnePassed(w)
    {
      optind := optind + 1;
    }

    method Join(argv: array<string>, ghost w: World)
      requires World(Value(), argv[..]) == w && InRange(w.st, w.argv)
      modifies this`firstNonopt, this`lastNonopt, argv
      ensures World(Value(), argv[..]) == Joined(w)
    {
      if firstNonopt != lastNonopt && lastNonopt != optind {
        Exchange(argv);
      } else if firstNonopt == lastNonopt {
        firstNonopt := optind;
      }
    }

    /** Everything has been looked at. */
    method MarkEnd(argv: array<string>, ghost w: World)
      requires World(Value(), argv[..]) == w
      modifies this`lastNonopt, this`optind
      ensures World(Value(), argv[..]) == AllSeen(w)
    {
      lastNonopt := argv.Length;
      optind := argv.Length;
    }

    method EndAtDashes(argv: array<string>)
      requires InRange(Value(), argv[..]) && optind < argv.Length
      modifies this`firstNonopt, this`lastNonopt, this`optind, argv
      ensures World(Value(), argv[..]) == GetoptSpec.EndAtDashes(World(old(Value()), old(argv[..])))
    {
      ghost var w := World(Value(), argv[..]);
      PassOne(argv, w);
      Join(argv, OnePassed(w));
      MarkEnd(argv, Joined(OnePassed(w)));
    }

    method AtElement(cfg: Config, argv: array<string>) returns (report: Report)
      requires InRange(Value(), argv[..]) && nextchar == "" && optarg == None
      modifies this, argv
      ensures Called(World(Value(), argv[..]), report) == GetoptSpec.AtElement(cfg, World(old(Value()), old(argv[..])))
    {
      if optind != argv.Length && argv[optind] == "--" {
        EndAtDashes(argv);
      }
      if optind == argv.Length {
        if firstNonopt != lastNonopt {
          optind := firstNonopt;
        }
        return Plain(DONE);
      }
      if IsNonOption(argv[optind]) {
        if ordering == RequireOrder {
          return Plain(DONE);
        }
        optarg := Some(argv[optind]);
        optind := optind + 1;
        return Report(NON_OPTION, optarg, None, None, None);
      }
      report := AtOption(cfg, argv);
    }

    /** Reads one option of the element at optind and advances past what it used. */
    method AtOption(cfg: Config, argv: array<string>) returns (report: Report)
      requires optind < argv.Length && OptionFirst(argv[optind..], nextchar) && optarg == None
      modifies this
      ensures Called(World(Value(), argv[..]), report) == GetoptSpec.AtOption(cfg, World(old(Value()), argv[..]))
    {
      if nextchar == "" {
        var e := argv[optind];
        var processed := AsLongOption(cfg, argv);
        if processed.Some? {
          return processed.value;
        }
        nextchar := e[1..];
      }
      report := ShortOption(cfg, argv);
    }

    /** Reads the element at optind as a long option, if it is one. */
    method AsLongOption(cfg: Config, argv: array<string>) returns (report: Option<Report>)
      requires optind < argv.Length && OptionFirst(argv[optind..], "") && optarg == None && nextchar == ""
      modifies this
      ensures var r := ScanAsLong(cfg, argv[old(optind)..]);
              report.Some? == r.Some?
              && if r.None? then Value() == old(Value()).(nextchar := nextchar)
                 else report.value == r.value.report && Value() == After(old(Value()), r.value)
    {
      report := None;
      var e := argv[optind];
      if cfg.longopts.Some? {
        if e[1] == '-' {
          nextchar := e[2..];
          report := ProcessLongOption(cfg, argv, cfg.longOnly);
        } else if cfg.longOnly && (|e| > 2 || IndexOf(Body(cfg.optstring), e[1]) == |Body(cfg.optstring)|) {
          nextchar := e[1..];
          report := ProcessLongOption(cfg, argv, true);
        }
      }
    }

    /** The long option spelled by nextchar, in the element at optind. */
    method ProcessLongOption(cfg: Config, argv: array<string>, longOnly: bool) returns (report: Option<Report>)
      requires cfg.longopts.Some? && optind < argv.Length && optarg == None
      requires longOnly && CharAt(argv[optind], 1) != '-' ==> nextchar != ""
      modifies this
      ensures var r := ScanLong(cfg, argv[old(optind)..], 0, old(nextchar), longOnly);
              report.Some? == r.Some?
              && if r.None? then Value() == old(Value())
                 else report.value == r.value.report && Value() == After(old(Value()), r.value)
    {
      var nameend := IndexOf(nextchar, '=');
      var text := nextchar;
      var found := LookUpName(cfg.longopts.value, text[..nameend], longOnly);
      if found.AmbiguousName? {
        nextchar := "";
        optind := optind + 1;
        optopt := 0;
        return Some(Complaint('?' as int, 0));
      }
      if found.NotFound? {
        if !longOnly || CharAt(argv[optind], 1) == '-'
          || IndexOf(Body(cfg.optstring), nextchar[0]) == |Body(cfg.optstring)| {
          nextchar := "";
          optind := optind + 1;
          optopt := 0;
          return Some(Complaint('?' as int, 0));
        }
        return None;
      }
      var pfound := cfg.longopts.value[found.index];
      optind := optind + 1;
      nextchar := "";
      if nameend < |text| {
        if pfound.hasArg == 0 {
          optopt := pfound.val;
          return Some(Complaint('?' as int, pfound.val));
        }
        optarg := Some(text[nameend + 1..]);
      } else if pfound.hasArg == 1 {
        if optind == argv.Length {
          optopt := pfound.val;
          return Some(Complaint(MissingArgument(cfg), pfound.val));
        }
        optarg := Some(argv[optind]);
        optind := optind + 1;
      }
      return Some(Chosen(pfound, found.index, optarg));
    }

    /** The long option that `-W` announces, in the rest of its element or in the next one. */
    method WordAfterW(cfg: Config, argv: array<string>) returns (report: Report)
      requires cfg.longopts.Some? && optarg == None && optind <= argv.Length
               && (nextchar != "" ==> optind < argv.Length)
      modifies this
      ensures nextchar == ""
      ensures old(optind) == argv.Length ==>
                report == Complaint(MissingArgument(cfg), 'W' as int)
                && Value() == old(Value()).(optopt := 'W' as int)
      ensures old(optind) < argv.Length ==>
                var text := if old(nextchar) == "" then argv[old(optind)] else old(nextchar);
                var r := ScanLong(cfg, argv[old(optind)..], 0, text, false).value;
                report == r.report && Value() == After(old(Value()), r)
    {
      if nextchar == "" {
        if optind == argv.Length {
          optopt := 'W' as int;
          return Complaint(MissingArgument(cfg), 'W' as int);
        }
        nextchar := argv[optind];
      }
      var processed := ProcessLongOption(cfg, argv, false);
      report := processed.value;
    }

    /** The next character of the cluster has been read, and its element passed if it was the last one. */
    ghost predicate LetterRead(st0: State)
      reads this
    {
      st0.nextchar != "" && Value() == st0.(nextchar := st0.nextchar[1..],
                                            optind := st0.optind + if |st0.nextchar| == 1 then 1 else 0)
    }

    /** The option whose letter is the next character of the cluster. */
    method ShortOption(cfg: Config, argv: array<string>) returns (report: Report)
      requires optind < argv.Length && nextchar != "" && optarg == None
      modifies this
      ensures var r := ScanShort(cfg, argv[old(optind)..], old(nextchar));
              report == r.report && Value() == After(old(Value()), r)
    {
      ghost var st0 := Value();
      var letters := Body(cfg.optstring);
      var c := nextchar[0];
      nextchar := nextchar[1..];
      var temp := IndexOf(letters, c);
      if nextchar == "" {
        optind := optind + 1;
      }
      if temp == |letters| || c == ':' || c == ';' {
        report := UnknownLetter(cfg, argv, c, st0);
      } else if c == 'W' && CharAt(letters, temp + 1) == ';' && cfg.longopts.Some? {
        report := LetterW(cfg, argv, st0);
      } else {
        report := LetterFound(cfg, argv, c, temp, st0);
      }
    }

    method UnknownLetter(cfg: Config, argv: array<string>, c: char, ghost st0: State) returns (report: Report)
      requires LetterRead(st0) && st0.optind < argv.Length && c == st0.nextchar[0] && optarg == None
      requires IndexOf(Body(cfg.optstring), c) == |Body(cfg.optstring)| || c == ':' || c == ';'
      modifies this`optopt
      ensures var r := ScanShort(cfg, argv[st0.optind..], st0.nextchar); report == r.report && Value() == After(st0, r)
    {
      optopt := c as int;
      report := Complaint('?' as int, c as int);
    }

    method LetterW(cfg: Config, argv: array<string>, ghost st0: State) returns (report: Report)
      requires LetterRead(st0) && st0.optind < argv.Length && st0.nextchar[0] == 'W' && optarg == None
      requires cfg.longopts.Some? && CharAt(Body(cfg.optstring), IndexOf(Body(cfg.optstring), 'W') + 1) == ';'
      modifies this
      ensures var r := ScanShort(cfg, argv[st0.optind..], st0.nextchar); report == r.report && Value() == After(st0, r)
    {
      ghost var rest, ends: nat := argv[st0.optind..], if nextchar == "" then 1 else 0;
      if optind < argv.Length {
        LongFrom(cfg, argv[..], st0.optind, ends, if nextchar == "" then argv[optind] else nextchar);
      }
      report := WordAfterW(cfg, argv);
    }

    method LetterFound(cfg: Config, argv: array<string>, c: char, temp: nat, ghost st0: State) returns (report: Report)
      requires LetterRead(st0) && st0.optind < argv.Length && c == st0.nextchar[0] && optarg == None
      requires temp == IndexOf(Body(cfg.optstring), c) < |Body(cfg.optstring)| && c != ':' && c != ';'
      requires !(c == 'W' && CharAt(Body(cfg.optstring), temp + 1) == ';' && cfg.longopts.Some?)
      modifies this
      ensures var r := ScanShort(cfg, argv[st0.optind..], st0.nextchar); report == r.report && Value() == After(st0, r)
    {
      report := TakeArgument(cfg, argv, c, temp);
    }

    /** What the colons after the letter at `temp` ask for; optind has already passed a finished element. */
    method TakeArgument(cfg: Config, argv: array<string>, c: char, temp: nat) returns (report: Report)
      requires optind <= argv.Length && (nextchar != "" ==> optind < argv.Length) && optarg == None
      requires nextchar == "" ==> optind >= 1
      modifies this
      ensures var start := if old(nextchar) == "" then old(optind) - 1 else old(optind);
              var r := ScanArgument(cfg, argv[start..], c, old(nextchar), temp);
              report == r.report && Value() == After(old(Value()).(optind := start), r)
    {
      var letters := Body(cfg.optstring);
      if CharAt(letters, temp + 1) == ':' {
        if nextchar != "" {
          optarg := Some(nextchar);
          optind := optind + 1;
        } else if CharAt(letters, temp + 2) != ':' {
          if optind == argv.Length {
            optopt := c as int;
            return Complaint(MissingArgument(cfg), c as int);
          }
          optarg := Some(argv[optind]);
          optind := optind + 1;
        }
        nextchar := "";
      }
      report := Report(c as int, optarg, None, None, None);
    }
  }

  function After(st: State, r: Scanned): State {
    st.(optind := st.optind + r.consumed, nextchar := r.next, optarg := r.report.optarg,
        optopt := if r.report.optopt.Some? then r.report.optopt.value else st.optopt)
  }

  // ---------------------------------------------------------------- long options

  /** A scan that starts k elements further on uses up k elements more. */
  lemma LongFrom(cfg: Config, argv: seq<string>, start: nat, k: nat, text: string)
    requires cfg.longopts.Some? && start + k < |argv|
    ensures var r := ScanLong(cfg, argv[start..], k, text, false).value;
            var r0 := ScanLong(cfg, argv[start + k..], 0, text, false).value;
            r == r0.(consumed := r0.consumed + k)
  {
    assert argv[start..][k] == argv[start + k];
    assert start + k + 1 < |argv| ==> argv[start..][k + 1] == argv[start + k..][1];
  }

  /** The two passes over the table: one for the exact name, one for abbreviations. */
  method LookUpName(opts: seq<LongOption>, name: string, longOnly: bool) returns (r: Lookup)
    ensures r == LookUp(opts, name, longOnly)
  {
    var p: nat := 0;
    while p < |opts|
      invariant p <= |opts| && forall j :: 0 <= j < p ==> !Matches(opts[j], name, true)
    {
      if opts[p].name == name {
        FirstMatchIs(opts, name, true, 0, p);
        return Found(p);
      }
      p := p + 1;
    }
    FirstMatchIs(opts, name, true, 0, p);
    var found: nat, ambiguous := |opts|, false;
    p := 0;
    while p < |opts|
      invariant p <= |opts| && found <= |opts| && (found < p || found == |opts|)
      invariant forall j :: 0 <= j < p && j < found ==> !Matches(opts[j], name, false)
      invariant found < |opts| ==> Matches(opts[found], name, false)
      invariant found < |opts| ==> (ambiguous <==> exists j :: found < j < p && Matches(opts[j], name, false)
                                                                && Clashes(opts[found], opts[j], longOnly))
      invariant found == |opts| ==> !ambiguous
    {
      if name <= opts[p].name {
        if found == |opts| {
          found := p;
        } else if longOnly || opts[found].hasArg != opts[p].hasArg || opts[found].flag != opts[p].flag
                  || opts[found].val != opts[p].val {
          assert Clashes(opts[found], opts[p], longOnly);
          ambiguous := true;
        }
      }
      p := p + 1;
    }
    FirstMatchIs(opts, name, false, 0, found);
    r := if ambiguous then AmbiguousName else if found == |opts| then NotFound else Found(found);
  }

  // ---------------------------------------------------------------- exchange

  function SwapSource(k: nat, a: nat, b: nat, len: nat): nat
    requires a + len <= b
  {
    if a <= k < a + len then k + (b - a) else if b <= k < b + len then k - (b - a) else k
  }

  /** The blocks of length len at a and at b, exchanged. */
  function Swapped(argv: seq<string>, a: nat, b: nat, len: nat): (r: seq<string>)
    requires a + len <= b && b + len <= |argv|
    ensures |r| == |argv|
  {
    seq(|argv|, k requires 0 <= k < |argv| => argv[SwapSource(k, a, b, len)])
  }

  method SwapBlocks(argv: array<string>, a: nat, b: nat, len: nat)
    requires a + len <= b && b + len <= argv.Length
    modifies argv
    ensures argv[..] == Swapped(old(argv[..]), a, b, len)
  {
    ghost var before := argv[..];
    var i := 0;
    while i < len
      invariant i <= len
      invariant forall k :: a <= k < a + i ==> argv[k] == before[k + (b - a)]
      invariant forall k :: b <= k < b + i ==> argv[k] == before[k - (b - a)]
      invariant forall k :: 0 <= k < argv.Length && !(a <= k < a + i) && !(b <= k < b + i) ==> argv[k] == before[k]
    {
      argv[a + i], argv[b + i] := argv[b + i], argv[a + i];
      i := i + 1;
    }
  }

  /** The shorter lower block goes to its final place; a shorter rotation remains. */
  lemma LongUpperBlock(argv: seq<string>, bottom: nat, middle: nat, top: nat, len: nat, top': nat)
    requires bottom < middle < top <= |argv| && len == middle - bottom < top - middle && top' == top - len
    ensures Rotate(Swapped(argv, bottom, top', len), bottom, middle, top') == Rotate(argv, bottom, middle, top)
  {
  }

  lemma LongLowerBlock(argv: seq<string>, bottom: nat, middle: nat, top: nat, len: nat, bottom': nat)
    requires bottom < middle < top <= |argv| && middle - bottom >= top - middle == len && bottom' == bottom + len
    ensures Rotate(Swapped(argv, bottom, middle, len), bottom', middle, top) == Rotate(argv, bottom, middle, top)
  {
  }

  /** The lower block is the shorter: it goes to the top. */
  method ExchangeLower(argv: array<string>, bottom: nat, middle: nat, top: nat) returns (top': nat)
    requires bottom < middle < top <= argv.Length && middle - bottom < top - middle
    modifies argv
    ensures middle < top' == top - (middle - bottom)
    ensures Rotate(argv[..], bottom, middle, top') == Rotate(old(argv[..]), bottom, middle, top)
  {
    var len := middle - bottom;
    ghost var before := argv[..];
    top' := top - len;
    SwapBlocks(argv, bottom, top', len);
    LongUpperBlock(before, bottom, middle, top, len, top');
  }

  /** The upper block is no longer than the lower: it goes to the bottom. */
  method ExchangeUpper(argv: array<string>, bottom: nat, middle: nat, top: nat) returns (bottom': nat)
    requires bottom < middle < top <= argv.Length && middle - bottom >= top - middle
    modifies argv
    ensures bottom < bottom' == bottom + (top - middle) <= middle
    ensures Rotate(argv[..], bottom', middle, top) == Rotate(old(argv[..]), bottom, middle, top)
  {
    var len := top - middle;
    ghost var before := argv[..];
    bottom' := bottom + len;
    SwapBlocks(argv, bottom, middle, len);
    LongLowerBlock(before, bottom, middle, top, len, bottom');
  }

  method RotateInPlace(argv: array<string>, first: nat, last: nat, optind: nat)
    requires first <= last <= optind <= argv.Length
    modifies argv
    ensures argv[..] == Rotate(old(argv[..]), first, last, optind)
  {
    var bottom: nat, middle: nat, top: nat := first, last, optind;
    ghost var goal := Rotate(argv[..], first, last, optind);
    while top > middle && middle > bottom
      invariant bottom <= middle <= top <= argv.Length
      invariant Rotate(argv[..], bottom, middle, top) == goal
      decreases top - bottom
    {
      if top - middle > middle - bottom {
        top := ExchangeLower(argv, bottom, middle, top);
      } else {
        bottom := ExchangeUpper(argv, bottom, middle, top);
      }
    }
    EmptyBlock(argv[..], bottom, middle, top);
  }

  lemma EmptyBlock(argv: seq<string>, bottom: nat, middle: nat, top: nat)
    requires bottom <= middle <= top <= |argv| && (bottom == middle || middle == top)
    ensures Rotate(argv, bottom, middle, top) == argv
  {
  }
}
