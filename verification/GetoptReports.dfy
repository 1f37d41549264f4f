/**
  What the options of a command line report: a line written from uses of options reports exactly these options with
  these arguments, in order, for any table of options.
 */
module GetoptReports {
  import opened GetoptRun
  import opened GetoptSpec
  import opened Sequences
  import opened Wrappers

  // ---------------------------------------------------------------- which option a name means

  /** The first option of this very name. */
  predicate IsNamed(opts: seq<LongOption>, name: string, i: nat) {
    i < |opts| && opts[i].name == name && forall j :: 0 <= j < i ==> opts[j].name != name
  }

  predicate NoneNamed(opts: seq<LongOption>, name: string) {
    forall j :: 0 <= j < |opts| ==> opts[j].name != name
  }

  predicate Alike(o: LongOption, p: LongOption) {
    o.hasArg == p.hasArg && o.flag == p.flag && o.val == p.val
  }

  /** The first option whose name begins so. */
  predicate IsFirstBegun(opts: seq<LongOption>, name: string, i: nat) {
    i < |opts| && name <= opts[i].name && forall j :: 0 <= j < i ==> !(name <= opts[j].name)
  }

  /** No option has this name, this is the first whose name begins so, and all others of that kind are alike; with
      `longOnly` there are none. */
  predicate IsAbbreviated(opts: seq<LongOption>, name: string, longOnly: bool, i: nat) {
    NoneNamed(opts, name) && IsFirstBegun(opts, name, i)
    && forall j :: i < j < |opts| && name <= opts[j].name ==> !longOnly && Alike(opts[i], opts[j])
  }

  /** No option has this name, and of those whose names begin so one is unlike the first. */
  predicate IsAmbiguous(opts: seq<LongOption>, name: string, longOnly: bool) {
    NoneNamed(opts, name)
    && exists i, j :: 0 <= i < j < |opts| && IsFirstBegun(opts, name, i) && name <= opts[j].name
                      && (longOnly || !Alike(opts[i], opts[j]))
  }

  predicate IsUnknown(opts: seq<LongOption>, name: string) {
    forall j :: 0 <= j < |opts| ==> !(name <= opts[j].name)
  }

  lemma {:induction false} FirstMatchFound(opts: seq<LongOption>, name: string, exact: bool, i: nat)
    requires i <= |opts|
    ensures var k := FirstMatch(opts, name, exact, i);
            (k < |opts| ==> Matches(opts[k], name, exact)) && forall j :: i <= j < k ==> !Matches(opts[j], name, exact)
    decreases |opts| - i
  {
    if i < |opts| && !Matches(opts[i], name, exact) {
      FirstMatchFound(opts, name, exact, i + 1);
    }
  }

  lemma NamedMeans(opts: seq<LongOption>, name: string, longOnly: bool, k: nat, i: nat)
    requires IsNamed(opts, name, k)
    ensures IsNamed(opts, name, i) || IsAbbreviated(opts, name, longOnly, i) <==> i == k
    ensures !IsAmbiguous(opts, name, longOnly) && !IsUnknown(opts, name)
  {
    assert opts[k].name == name && name <= opts[k].name;
  }

  lemma BegunMeans(opts: seq<LongOption>, name: string, longOnly: bool, k: nat, i: nat)
    requires NoneNamed(opts, name) && IsFirstBegun(opts, name, k)
    ensures IsNamed(opts, name, i) || IsAbbreviated(opts, name, longOnly, i)
            <==> i == k && !Ambiguous(opts, name, k, longOnly)
    ensures (IsAmbiguous(opts, name, longOnly) <==> Ambiguous(opts, name, k, longOnly)) && !IsUnknown(opts, name)
  {
    ClashMeans(opts, name, longOnly, k);
    assert IsAbbreviated(opts, name, longOnly, i) ==> IsFirstBegun(opts, name, i);
  }

  lemma UnknownMeans(opts: seq<LongOption>, name: string, longOnly: bool, i: nat)
    requires IsUnknown(opts, name)
    ensures !IsNamed(opts, name, i) && !IsAbbreviated(opts, name, longOnly, i) && !IsAmbiguous(opts, name, longOnly)
  {
  }

  lemma FirstMatchMeans(opts: seq<LongOption>, name: string)
    ensures var exact, begun := FirstMatch(opts, name, true, 0), FirstMatch(opts, name, false, 0);
            if exact < |opts| then IsNamed(opts, name, exact)
            else if begun < |opts| then NoneNamed(opts, name) && IsFirstBegun(opts, name, begun)
            else IsUnknown(opts, name)
  {
    FirstMatchFound(opts, name, true, 0);
    FirstMatchFound(opts, name, false, 0);
  }

  /** Exactly when a name is that of an option or an abbreviation of one, ambiguous, or unknown. */
  lemma LookUpMeans(opts: seq<LongOption>, name: string, longOnly: bool, i: nat)
    ensures LookUp(opts, name, longOnly) == Found(i)
            <==> IsNamed(opts, name, i) || IsAbbreviated(opts, name, longOnly, i)
    ensures LookUp(opts, name, longOnly) == AmbiguousName <==> IsAmbiguous(opts, name, longOnly)
    ensures LookUp(opts, name, longOnly) == NotFound <==> IsUnknown(opts, name)
  {
    var exact, begun := FirstMatch(opts, name, true, 0), FirstMatch(opts, name, false, 0);
    FirstMatchMeans(opts, name);
    if exact < |opts| {
      NamedMeans(opts, name, longOnly, exact, i);
    } else if begun < |opts| {
      BegunMeans(opts, name, longOnly, begun, i);
    } else {
      UnknownMeans(opts, name, longOnly, i);
    }
  }

  lemma ClashMeans(opts: seq<LongOption>, name: string, longOnly: bool, i: nat)
    requires NoneNamed(opts, name) && IsFirstBegun(opts, name, i)
    ensures Ambiguous(opts, name, i, longOnly) <==> IsAmbiguous(opts, name, longOnly)
    ensures Ambiguous(opts, name, i, longOnly) <==> !IsAbbreviated(opts, name, longOnly, i)
  {
    if Ambiguous(opts, name, i, longOnly) {
      var j :| i < j < |opts| && Matches(opts[j], name, false) && Clashes(opts[i], opts[j], longOnly);
      assert longOnly || !Alike(opts[i], opts[j]);
    } else {
      forall j | i < j < |opts| && name <= opts[j].name
        ensures !longOnly && Alike(opts[i], opts[j])
      {
        assert Matches(opts[j], name, false);
      }
    }
  }

  /** The sign in front of the option string, or its absence, decides the ordering, and the rest is what is declared. */
  lemma SignMeans(cfg: Config, letters: string)
    ensures cfg.optstring == "-" + letters ==> OrderingOf(cfg) == ReturnInOrder && Body(cfg.optstring) == letters
    ensures cfg.optstring == "+" + letters ==> OrderingOf(cfg) == RequireOrder && Body(cfg.optstring) == letters
    ensures !("-" <= cfg.optstring) && !("+" <= cfg.optstring) ==>
              OrderingOf(cfg) == (if cfg.posixlyCorrect then RequireOrder else Permute)
              && Body(cfg.optstring) == cfg.optstring
  {
    assert cfg.optstring == "-" + letters ==> cfg.optstring[1..] == letters;
    assert cfg.optstring == "+" + letters ==> cfg.optstring[1..] == letters;
  }

  /** A missing argument is reported as `:` exactly when the option string begins so, behind its sign. */
  lemma MissingMeans(cfg: Config)
    ensures MissingArgument(cfg) == ':' as int <==> ":" <= Body(cfg.optstring)
    ensures MissingArgument(cfg) == '?' as int <==> !(":" <= Body(cfg.optstring))
  {
  }

  // ---------------------------------------------------------------- uses of long options

  /** A use of a long option by its name or an abbreviation: alone, with a value after `=`, or with the next element
      as its value; and the uses that are errors. */
  datatype LongUse =
    | Bare(name: string, i: nat)
    | With(name: string, i: nat, value: string)
    | Then(name: string, i: nat, value: string)
    | Unknown(text: string)
    | Unclear(text: string)
    | Refusing(name: string, i: nat, value: string)
    | Lacking(name: string, i: nat)

  function LongText(u: LongUse): string {
    match u
    case Bare(name, _) => name
    case With(name, _, value) => name + "=" + value
    case Then(name, _, _) => name
    case Unknown(text) => text
    case Unclear(text) => text
    case Refusing(name, _, value) => name + "=" + value
    case Lacking(name, _) => name
  }

  function LongExtra(u: LongUse): seq<string> {
    if u.Then? then [u.value] else []
  }

  /** The part before the first `=`. */
  ghost predicate IsName(text: string, name: string) {
    '=' !in name && (text == name || exists value: string :: text == name + "=" + value)
  }

  predicate IsSpelled(opts: seq<LongOption>, longOnly: bool, name: string, i: nat) {
    '=' !in name && (IsNamed(opts, name, i) || IsAbbreviated(opts, name, longOnly, i))
  }

  /** The use is what it says, before these elements. */
  ghost predicate IsLongUse(opts: seq<LongOption>, longOnly: bool, u: LongUse, more: seq<string>) {
    match u
    case Bare(name, i) => IsSpelled(opts, longOnly, name, i) && opts[i].hasArg != 1
    case With(name, i, _) => IsSpelled(opts, longOnly, name, i) && opts[i].hasArg != 0
    case Then(name, i, _) => IsSpelled(opts, longOnly, name, i) && opts[i].hasArg == 1
    case Unknown(text) => exists name: string :: IsName(text, name) && IsUnknown(opts, name)
    case Unclear(text) => exists name: string :: IsName(text, name) && IsAmbiguous(opts, name, longOnly)
    case Refusing(name, i, _) => IsSpelled(opts, longOnly, name, i) && opts[i].hasArg == 0
    case Lacking(name, i) => IsSpelled(opts, longOnly, name, i) && opts[i].hasArg == 1 && more == []
  }

  /** An option reports its value, or zero and stores the value if it has a flag. */
  function OptionReport(o: LongOption, i: nat, value: Option<string>): Report {
    match o.flag
    case None => Report(o.val, value, None, Some(i), None)
    case Some(flag) => Report(0, value, None, Some(i), Some((flag, o.val)))
  }

  function ErrorReport(code: char, optopt: int): Report {
    Report(code as int, None, Some(optopt), None, None)
  }

  /** `:` or `?`, as the option string asks for. */
  function MissingCode(cfg: Config): char {
    if ":" <= Body(cfg.optstring) then ':' else '?'
  }

  function LongReport(cfg: Config, opts: seq<LongOption>, u: LongUse): Report {
    match u
    case Bare(_, i) => if i < |opts| then OptionReport(opts[i], i, None) else ErrorReport('?', 0)
    case With(_, i, value) => if i < |opts| then OptionReport(opts[i], i, Some(value)) else ErrorReport('?', 0)
    case Then(_, i, value) => if i < |opts| then OptionReport(opts[i], i, Some(value)) else ErrorReport('?', 0)
    case Unknown(_) => ErrorReport('?', 0)
    case Unclear(_) => ErrorReport('?', 0)
    case Refusing(_, i, _) => ErrorReport('?', if i < |opts| then opts[i].val else 0)
    case Lacking(_, i) => ErrorReport(MissingCode(cfg), if i < |opts| then opts[i].val else 0)
  }

  lemma NameEnds(text: string, name: string)
    requires IsName(text, name)
    ensures IndexOf(text, '=') == |name| && text[..|name|] == name
  {
    IndexIs(text, '=', |name|);
  }

  lemma ValueAfterName(name: string, value: string)
    requires '=' !in name
    ensures IsName(name + "=" + value, name) && (name + "=" + value)[|name| + 1..] == value
  {
  }

  /** The scan of a use in element k. */
  ghost predicate IsScanned(cfg: Config, rest: seq<string>, k: nat, u: LongUse, longOnly: bool)
    requires cfg.longopts.Some? && k < |rest| && (longOnly && CharAt(rest[k], 1) != '-' ==> LongText(u) != "")
  {
    ScanLong(cfg, rest, k, LongText(u), longOnly)
    == Some(Scanned(LongReport(cfg, cfg.longopts.value, u), k + 1 + |LongExtra(u)|, ""))
  }

  /** The scan of a use reports it and takes its elements. */
  lemma LongScans(cfg: Config, rest: seq<string>, k: nat, u: LongUse, longOnly: bool, more: seq<string>)
    requires cfg.longopts.Some? && IsLongUse(cfg.longopts.value, longOnly, u, more)
    requires k < |rest| && rest[k + 1..] == LongExtra(u) + more
    requires longOnly && CharAt(rest[k], 1) != '-' ==>
               LongText(u) != "" && (u.Unknown? ==> LongText(u)[0] !in Body(cfg.optstring))
    ensures IsScanned(cfg, rest, k, u, longOnly)
  {
    if u.Unknown? || u.Unclear? {
      WrongNameScans(cfg, rest, k, u, longOnly, more);
    } else if u.With? || u.Refusing? {
      UseWithValueScans(cfg, rest, k, u, longOnly, more);
    } else {
      UseAloneScans(cfg, rest, k, u, longOnly, more);
    }
  }

  lemma WrongNameScans(cfg: Config, rest: seq<string>, k: nat, u: LongUse, longOnly: bool, more: seq<string>)
    requires cfg.longopts.Some? && IsLongUse(cfg.longopts.value, longOnly, u, more)
    requires (u.Unknown? || u.Unclear?) && k < |rest|
    requires longOnly && CharAt(rest[k], 1) != '-' ==>
               u.text != "" && (u.Unknown? ==> u.text[0] !in Body(cfg.optstring))
    ensures IsScanned(cfg, rest, k, u, longOnly)
  {
    if u.Unknown? {
      UnknownScans(cfg, rest, k, u.text, longOnly);
    } else {
      UnclearScans(cfg, rest, k, u.text, longOnly);
    }
  }

  lemma UseWithValueScans(cfg: Config, rest: seq<string>, k: nat, u: LongUse, longOnly: bool, more: seq<string>)
    requires cfg.longopts.Some? && IsLongUse(cfg.longopts.value, longOnly, u, more)
    requires (u.With? || u.Refusing?) && k < |rest|
    ensures IsScanned(cfg, rest, k, u, longOnly)
  {
    FoundWithValue(cfg, rest, k, u.name, u.i, u.value, longOnly);
  }

  lemma UseAloneScans(cfg: Config, rest: seq<string>, k: nat, u: LongUse, longOnly: bool, more: seq<string>)
    requires cfg.longopts.Some? && IsLongUse(cfg.longopts.value, longOnly, u, more)
    requires (u.Bare? || u.Then? || u.Lacking?) && k < |rest| && rest[k + 1..] == LongExtra(u) + more
    requires longOnly && CharAt(rest[k], 1) != '-' ==> u.name != ""
    ensures IsScanned(cfg, rest, k, u, longOnly)
  {
    FoundAlone(cfg, rest, k, u.name, u.i, longOnly);
    if u.Then? {
      FirstOfRest(rest, k, u.value, more);
    } else if u.Lacking? {
      assert rest[k + 1..] == [];
    }
  }

  lemma FirstOfRest(rest: seq<string>, k: nat, value: string, more: seq<string>)
    requires k < |rest| && rest[k + 1..] == [value] + more
    ensures k + 1 < |rest| && rest[k + 1] == value
  {
    assert rest[k + 1] == rest[k + 1..][0];
  }

  lemma UnknownScans(cfg: Config, rest: seq<string>, k: nat, text: string, longOnly: bool)
    requires cfg.longopts.Some? && k < |rest|
    requires exists name: string :: IsName(text, name) && IsUnknown(cfg.longopts.value, name)
    requires longOnly && CharAt(rest[k], 1) != '-' ==> text != "" && text[0] !in Body(cfg.optstring)
    ensures ScanLong(cfg, rest, k, text, longOnly) == Some(Scanned(ErrorReport('?', 0), k + 1, ""))
  {
    var name: string :| IsName(text, name) && IsUnknown(cfg.longopts.value, name);
    NameEnds(text, name);
    LookUpMeans(cfg.longopts.value, name, longOnly, 0);
    if longOnly && CharAt(rest[k], 1) != '-' {
      IndexIs(Body(cfg.optstring), text[0], |Body(cfg.optstring)|);
    }
  }

  lemma UnclearScans(cfg: Config, rest: seq<string>, k: nat, text: string, longOnly: bool)
    requires cfg.longopts.Some? && k < |rest| && (longOnly && CharAt(rest[k], 1) != '-' ==> text != "")
    requires exists name: string :: IsName(text, name) && IsAmbiguous(cfg.longopts.value, name, longOnly)
    ensures ScanLong(cfg, rest, k, text, longOnly) == Some(Scanned(ErrorReport('?', 0), k + 1, ""))
  {
    var name: string :| IsName(text, name) && IsAmbiguous(cfg.longopts.value, name, longOnly);
    NameEnds(text, name);
    LookUpMeans(cfg.longopts.value, name, longOnly, 0);
  }

  lemma FoundAlone(cfg: Config, rest: seq<string>, k: nat, name: string, i: nat, longOnly: bool)
    requires cfg.longopts.Some? && k < |rest| && IsSpelled(cfg.longopts.value, longOnly, name, i)
    requires longOnly && CharAt(rest[k], 1) != '-' ==> name != ""
    ensures var o := cfg.longopts.value[i];
            ScanLong(cfg, rest, k, name, longOnly)
            == Some(if o.hasArg != 1 then Scanned(OptionReport(o, i, None), k + 1, "")
                    else if k + 1 < |rest| then Scanned(OptionReport(o, i, Some(rest[k + 1])), k + 2, "")
                    else Scanned(ErrorReport(MissingCode(cfg), o.val), k + 1, ""))
  {
    NameEnds(name, name);
    LookUpMeans(cfg.longopts.value, name, longOnly, i);
  }

  lemma FoundWithValue(cfg: Config, rest: seq<string>, k: nat, name: string, i: nat, value: string, longOnly: bool)
    requires cfg.longopts.Some? && k < |rest| && IsSpelled(cfg.longopts.value, longOnly, name, i)
    ensures var o := cfg.longopts.value[i];
            ScanLong(cfg, rest, k, name + "=" + value, longOnly)
            == Some(if o.hasArg == 0 then Scanned(ErrorReport('?', o.val), k + 1, "")
                    else Scanned(OptionReport(o, i, Some(value)), k + 1, ""))
  {
    ValueAfterName(name, value);
    NameEnds(name + "=" + value, name);
    LookUpMeans(cfg.longopts.value, name, longOnly, i);
  }

  // ---------------------------------------------------------------- clusters of letters

  /** The option string declares the letter, and this follows where it does so first. */
  ghost predicate Declares(cfg: Config, c: char, after: string) {
    exists before: string :: Body(cfg.optstring) == before + [c] + after && c !in before
  }

  predicate IsWordLetter(cfg: Config, c: char, after: string) {
    c == 'W' && ";" <= after && cfg.longopts.Some?
  }

  predicate IsLetter(c: char) {
    c != ':' && c != ';'
  }

  /** A letter that takes no argument. */
  ghost predicate IsFlag(cfg: Config, c: char) {
    IsLetter(c) && exists after: string :: Declares(cfg, c, after) && !(":" <= after) && !IsWordLetter(cfg, c, after)
  }

  ghost predicate TakesArgument(cfg: Config, c: char) {
    IsLetter(c) && exists after: string :: Declares(cfg, c, after) && ":" <= after
  }

  ghost predicate NeedsArgument(cfg: Config, c: char) {
    IsLetter(c) && exists after: string :: Declares(cfg, c, after) && ":" <= after && !("::" <= after)
  }

  ghost predicate MayTakeArgument(cfg: Config, c: char) {
    IsLetter(c) && exists after: string :: Declares(cfg, c, after) && "::" <= after
  }

  /** `W` before a semicolon announces a long option. */
  ghost predicate AnnouncesWord(cfg: Config) {
    cfg.longopts.Some? && exists after: string :: Declares(cfg, 'W', after) && ";" <= after
  }

  predicate IsUnknownLetter(cfg: Config, c: char) {
    c !in Body(cfg.optstring) || c == ':' || c == ';'
  }

  /** Where the letter is found, and the two characters after it. */
  lemma DeclaredAt(cfg: Config, c: char, after: string)
    requires Declares(cfg, c, after)
    ensures var s := Body(cfg.optstring);
            var t := IndexOf(s, c);
            t < |s| && (CharAt(s, t + 1) == ':' && |after| > 0 <==> ":" <= after)
            && CharAt(s, t + 1) == (if |after| > 0 then after[0] else '\0')
            && CharAt(s, t + 2) == (if |after| > 1 then after[1] else '\0')
  {
    var s := Body(cfg.optstring);
    var before: string :| s == before + [c] + after && c !in before;
    IndexIs(s, c, |before|);
  }

  lemma FlagScans(cfg: Config, rest: seq<string>, c: char, more: string)
    requires rest != [] && IsFlag(cfg, c)
    ensures ScanShort(cfg, rest, [c] + more)
            == Scanned(Report(c as int, None, None, None, None), if more == "" then 1 else 0, more)
  {
    var after: string :| Declares(cfg, c, after) && !(":" <= after) && !IsWordLetter(cfg, c, after);
    DeclaredAt(cfg, c, after);
    assert ([c] + more)[1..] == more;
  }

  lemma UnknownLetterScans(cfg: Config, rest: seq<string>, c: char, more: string)
    requires rest != [] && IsUnknownLetter(cfg, c)
    ensures ScanShort(cfg, rest, [c] + more)
            == Scanned(ErrorReport('?', c as int), if more == "" then 1 else 0, more)
  {
    assert ([c] + more)[1..] == more;
    if c !in Body(cfg.optstring) {
      IndexIs(Body(cfg.optstring), c, |Body(cfg.optstring)|);
    }
  }

  lemma AttachedScans(cfg: Config, rest: seq<string>, c: char, value: string)
    requires rest != [] && TakesArgument(cfg, c) && value != ""
    ensures ScanShort(cfg, rest, [c] + value) == Scanned(Report(c as int, Some(value), None, None, None), 1, "")
  {
    var after: string :| Declares(cfg, c, after) && ":" <= after;
    DeclaredAt(cfg, c, after);
    assert ([c] + value)[1..] == value;
  }

  lemma OptionalAloneScans(cfg: Config, rest: seq<string>, c: char)
    requires rest != [] && MayTakeArgument(cfg, c)
    ensures ScanShort(cfg, rest, [c]) == Scanned(Report(c as int, None, None, None, None), 1, "")
  {
    var after: string :| Declares(cfg, c, after) && "::" <= after;
    DeclaredAt(cfg, c, after);
  }

  lemma RequiredScans(cfg: Config, rest: seq<string>, c: char)
    requires rest != [] && NeedsArgument(cfg, c)
    ensures ScanShort(cfg, rest, [c])
            == if |rest| == 1 then Scanned(ErrorReport(MissingCode(cfg), c as int), 1, "")
               else Scanned(Report(c as int, Some(rest[1]), None, None, None), 2, "")
  {
    var after: string :| Declares(cfg, c, after) && ":" <= after && !("::" <= after);
    DeclaredAt(cfg, c, after);
    MissingMeans(cfg);
  }

  lemma WordFound(cfg: Config)
    requires AnnouncesWord(cfg)
    ensures var s := Body(cfg.optstring);
            IndexOf(s, 'W') < |s| && CharAt(s, IndexOf(s, 'W') + 1) == ';'
  {
    var after: string :| Declares(cfg, 'W', after) && ";" <= after;
    DeclaredAt(cfg, 'W', after);
  }

  lemma WordIsLong(cfg: Config, rest: seq<string>, text: string)
    requires AnnouncesWord(cfg) && rest != [] && text != ""
    ensures ScanShort(cfg, rest, "W" + text) == ScanLong(cfg, rest, 0, text, false).value
  {
    WordFound(cfg);
    assert ("W" + text)[1..] == text;
  }

  lemma WordScans(cfg: Config, rest: seq<string>, u: LongUse, more: seq<string>)
    requires AnnouncesWord(cfg) && IsLongUse(cfg.longopts.value, false, u, more) && LongText(u) != ""
    requires rest != [] && rest[1..] == LongExtra(u) + more
    ensures ScanShort(cfg, rest, "W" + LongText(u))
            == Scanned(LongReport(cfg, cfg.longopts.value, u), 1 + |LongExtra(u)|, "")
  {
    WordIsLong(cfg, rest, LongText(u));
    LongScans(cfg, rest, 0, u, false, more);
  }

  lemma NextWordScans(cfg: Config, rest: seq<string>, u: LongUse, more: seq<string>)
    requires AnnouncesWord(cfg) && IsLongUse(cfg.longopts.value, false, u, more)
    requires |rest| > 1 && rest[1] == LongText(u) && rest[2..] == LongExtra(u) + more
    ensures ScanShort(cfg, rest, "W") == Scanned(LongReport(cfg, cfg.longopts.value, u), 2 + |LongExtra(u)|, "")
  {
    WordFound(cfg);
    LongScans(cfg, rest, 1, u, false, more);
  }

  lemma NoWordScans(cfg: Config, rest: seq<string>)
    requires AnnouncesWord(cfg) && |rest| == 1
    ensures ScanShort(cfg, rest, "W") == Scanned(ErrorReport(MissingCode(cfg), 'W' as int), 1, "")
  {
    WordFound(cfg);
    MissingMeans(cfg);
  }

  // ---------------------------------------------------------------- command lines

  /** How a cluster ends: with its flags, with a letter and its value or without one, or with a word. */
  datatype Last =
    | Nothing
    | Attached(c: char, value: string)
    | Alone(c: char)
    | Following(c: char, value: string)
    | WithoutValue(c: char)
    | WordAttached(u: LongUse)
    | WordNext(u: LongUse)
    | WithoutWord

  function LastText(last: Last): string {
    match last
    case Nothing => ""
    case Attached(c, value) => [c] + value
    case Alone(c) => [c]
    case Following(c, _) => [c]
    case WithoutValue(c) => [c]
    case WordAttached(u) => "W" + LongText(u)
    case WordNext(_) => "W"
    case WithoutWord => "W"
  }

  function LastExtra(last: Last): seq<string> {
    match last
    case Following(_, value) => [value]
    case WordAttached(u) => LongExtra(u)
    case WordNext(u) => [LongText(u)] + LongExtra(u)
    case _ => []
  }

  ghost predicate IsLast(cfg: Config, last: Last, more: seq<string>) {
    match last
    case Nothing => true
    case Attached(c, value) => TakesArgument(cfg, c) && value != ""
    case Alone(c) => MayTakeArgument(cfg, c)
    case Following(c, _) => NeedsArgument(cfg, c)
    case WithoutValue(c) => NeedsArgument(cfg, c) && more == []
    case WordAttached(u) =>
      AnnouncesWord(cfg) && IsLongUse(cfg.longopts.value, false, u, more) && LongText(u) != ""
    case WordNext(u) => AnnouncesWord(cfg) && IsLongUse(cfg.longopts.value, false, u, more)
    case WithoutWord => AnnouncesWord(cfg) && more == []
  }

  function LastReport(cfg: Config, last: Last): seq<Report> {
    match last
    case Nothing => []
    case Attached(c, value) => [Report(c as int, Some(value), None, None, None)]
    case Alone(c) => [Report(c as int, None, None, None, None)]
    case Following(c, value) => [Report(c as int, Some(value), None, None, None)]
    case WithoutValue(c) => [ErrorReport(MissingCode(cfg), c as int)]
    case WordAttached(u) => if cfg.longopts.Some? then [LongReport(cfg, cfg.longopts.value, u)] else []
    case WordNext(u) => if cfg.longopts.Some? then [LongReport(cfg, cfg.longopts.value, u)] else []
    case WithoutWord => [ErrorReport(MissingCode(cfg), 'W' as int)]
  }

  lemma LastScans(cfg: Config, rest: seq<string>, last: Last, more: seq<string>)
    requires IsLast(cfg, last, more) && last != Nothing && rest != [] && rest[1..] == LastExtra(last) + more
    ensures LastText(last) != "" && |LastReport(cfg, last)| == 1
    ensures ScanShort(cfg, rest, LastText(last)) == Scanned(LastReport(cfg, last)[0], 1 + |LastExtra(last)|, "")
  {
    match last
    case Attached(c, value) => AttachedScans(cfg, rest, c, value);
    case Alone(c) => OptionalAloneScans(cfg, rest, c);
    case Following(c, value) =>
      assert rest[1] == rest[1..][0];
      RequiredScans(cfg, rest, c);
    case WithoutValue(c) => RequiredScans(cfg, rest, c);
    case WordAttached(u) => WordScans(cfg, rest, u, more);
    case WordNext(u) =>
      assert rest[1] == rest[1..][0] && rest[2..] == rest[1..][1..];
      assert ([LongText(u)] + LongExtra(u) + more)[1..] == LongExtra(u) + more;
      NextWordScans(cfg, rest, u, more);
    case WithoutWord => NoWordScans(cfg, rest);
  }

  /** What a command line is written from: an operand, a long option behind its dashes, or a cluster of letters. */
  datatype Item =
    | Operand(text: string)
    | Long(dashes: string, u: LongUse)
    | Letters(flags: string, last: Last)

  function FirstElement(item: Item): string {
    match item
    case Operand(text) => text
    case Long(dashes, u) => dashes + LongText(u)
    case Letters(flags, last) => "-" + (flags + LastText(last))
  }

  function Extra(item: Item): seq<string> {
    match item
    case Operand(_) => []
    case Long(_, u) => LongExtra(u)
    case Letters(_, last) => LastExtra(last)
  }

  function Elements(item: Item): seq<string> {
    [FirstElement(item)] + Extra(item)
  }

  /** With `longOnly`, an element behind one dash is read as a long option, but for a known single letter, and for a
      name that is unknown and begins with a known letter. */
  ghost predicate IsReadAsLetters(cfg: Config, text: string) {
    cfg.longopts.Some? ==>
      !("-" <= text)
      && (cfg.longOnly ==>
            text != "" && text[0] in Body(cfg.optstring)
            && (|text| == 1 || exists name: string :: IsName(text, name) && IsUnknown(cfg.longopts.value, name)))
  }

  ghost predicate AreFlags(cfg: Config, flags: string) {
    forall k :: 0 <= k < |flags| ==> IsFlag(cfg, flags[k]) || IsUnknownLetter(cfg, flags[k])
  }

  /** The item is what it says, before these elements. */
  ghost predicate IsItem(cfg: Config, item: Item, more: seq<string>) {
    match item
    case Operand(text) => text == "" || text == "-" || text[0] != '-'
    case Long(dashes, u) =>
      cfg.longopts.Some? && IsLongUse(cfg.longopts.value, cfg.longOnly, u, more) && LongText(u) != ""
      && (dashes == "--"
          || (dashes == "-" && cfg.longOnly && LongText(u)[0] != '-'
              && (|LongText(u)| > 1 || LongText(u)[0] !in Body(cfg.optstring))
              && (u.Unknown? ==> LongText(u)[0] !in Body(cfg.optstring))))
    case Letters(flags, last) =>
      var text := flags + LastText(last);
      text != "" && text != "-" && IsReadAsLetters(cfg, text) && IsLast(cfg, last, more) && AreFlags(cfg, flags)
  }

  function FlagReport(cfg: Config, c: char): Report {
    if IsUnknownLetter(cfg, c) then ErrorReport('?', c as int) else Report(c as int, None, None, None, None)
  }

  function FlagReports(cfg: Config, flags: string): seq<Report> {
    if flags == "" then [] else [FlagReport(cfg, flags[0])] + FlagReports(cfg, flags[1..])
  }

  function ItemReports(cfg: Config, item: Item): seq<Report> {
    match item
    case Operand(_) => []
    case Long(_, u) => if cfg.longopts.Some? then [LongReport(cfg, cfg.longopts.value, u)] else []
    case Letters(flags, last) => FlagReports(cfg, flags) + LastReport(cfg, last)
  }

  /** The option is reported, and its elements are taken, before what the rest gives. */
  ghost predicate Takes(p: Parsed, reports: seq<Report>, elements: seq<string>, q: Parsed) {
    p.reports == reports + q.reports && p.options == elements + q.options && p.others == q.others
  }

  /** One scan that leaves nothing of its element. */
  lemma ScanTakes(cfg: Config, ordering: Ordering, rest: seq<string>, next: string, r: Scanned, more: seq<string>)
    requires OptionFirst(rest, next) && ScanOption(cfg, rest, next) == r && r.next == "" && r.consumed <= |rest|
    requires rest[r.consumed..] == more
    ensures Takes(Parse(cfg, ordering, rest, next), [r.report], rest[..r.consumed], Parse(cfg, ordering, more, ""))
  {
  }

  /** One letter that does not end its element. */
  lemma ScanGoesOn(cfg: Config, ordering: Ordering, rest: seq<string>, next: string, r: Scanned)
    requires OptionFirst(rest, next) && ScanOption(cfg, rest, next) == r && r.next != "" && r.consumed == 0
    requires OptionFirst(rest, r.next)
    ensures Takes(Parse(cfg, ordering, rest, next), [r.report], [], Parse(cfg, ordering, rest, r.next))
  {
    assert rest[0..] == rest && rest[..0] == [];
  }

  lemma TakesMore(p: Parsed, first: seq<Report>, reports: seq<Report>, elements: seq<string>, q: Parsed, middle: Parsed)
    requires Takes(p, first, [], middle) && Takes(middle, reports, elements, q)
    ensures Takes(p, first + reports, elements, q)
  {
    Associate(first, reports, q.reports);
    assert [] + middle.options == middle.options;
  }

  /** An element that is read as options, with the elements that its option takes. */
  ghost predicate BeginsOption(rest: seq<string>, extra: seq<string>, more: seq<string>) {
    rest != [] && !IsNonOption(rest[0]) && rest[0] != "--" && rest[1..] == extra + more
  }

  lemma TakenElements(rest: seq<string>, extra: seq<string>, more: seq<string>)
    requires BeginsOption(rest, extra, more)
    ensures 1 + |extra| <= |rest| && rest[..1 + |extra|] == [rest[0]] + extra && rest[1 + |extra|..] == more
  {
    assert rest == [rest[0]] + rest[1..];
  }

  /** One scan that ends its element and takes these more. */
  lemma OptionTakes(cfg: Config, ordering: Ordering, rest: seq<string>, next: string, report: Report,
                    extra: seq<string>, more: seq<string>)
    requires BeginsOption(rest, extra, more) && |next| < |rest[0]|
    requires ScanOption(cfg, rest, next) == Scanned(report, 1 + |extra|, "")
    ensures Takes(Parse(cfg, ordering, rest, next), [report], [rest[0]] + extra, Parse(cfg, ordering, more, ""))
  {
    TakenElements(rest, extra, more);
    ScanTakes(cfg, ordering, rest, next, ScanOption(cfg, rest, next), more);
  }

  lemma LastParses(cfg: Config, ordering: Ordering, rest: seq<string>, last: Last, more: seq<string>)
    requires BeginsOption(rest, LastExtra(last), more) && |LastText(last)| < |rest[0]|
    requires IsLast(cfg, last, more) && last != Nothing
    ensures LastText(last) != ""
    ensures Takes(Parse(cfg, ordering, rest, LastText(last)), LastReport(cfg, last), [rest[0]] + LastExtra(last),
                  Parse(cfg, ordering, more, ""))
  {
    LastScans(cfg, rest, last, more);
    var report := LastReport(cfg, last)[0];
    assert LastReport(cfg, last) == [report];
    OptionTakes(cfg, ordering, rest, LastText(last), report, LastExtra(last), more);
  }

  lemma LetterScans(cfg: Config, rest: seq<string>, c: char, more: string)
    requires rest != [] && (IsFlag(cfg, c) || IsUnknownLetter(cfg, c))
    ensures ScanShort(cfg, rest, [c] + more) == Scanned(FlagReport(cfg, c), if more == "" then 1 else 0, more)
  {
    if IsUnknownLetter(cfg, c) {
      UnknownLetterScans(cfg, rest, c, more);
    } else {
      FlagScans(cfg, rest, c, more);
    }
  }

  predicate IsOptionElement(rest: seq<string>) {
    rest != [] && !IsNonOption(rest[0]) && rest[0] != "--"
  }

  /** Reading on in this text of the first element gives these reports, takes these elements, and leaves the rest. */
  ghost predicate Gives(cfg: Config, ordering: Ordering, rest: seq<string>, text: string, reports: seq<Report>,
                        elements: seq<string>, q: Parsed) {
    IsOptionElement(rest) && |text| < |rest[0]| && Takes(Parse(cfg, ordering, rest, text), reports, elements, q)
  }

  /** What holds of a text and its reports also holds with one more flag before it. */
  ghost predicate Prepends(cfg: Config, gives: (string, seq<Report>) -> bool, limit: nat) {
    forall c: char, left: string, reports: seq<Report> {:trigger gives([c] + left, [FlagReport(cfg, c)] + reports)} ::
      (IsFlag(cfg, c) || IsUnknownLetter(cfg, c)) && left != "" && |left| + 1 < limit && gives(left, reports)
      ==> gives([c] + left, [FlagReport(cfg, c)] + reports)
  }

  ghost predicate EndsWithFlag(cfg: Config, gives: (string, seq<Report>) -> bool) {
    forall c: char {:trigger FlagReport(cfg, c)} ::
      IsFlag(cfg, c) || IsUnknownLetter(cfg, c) ==> gives([c], [FlagReport(cfg, c)])
  }

  lemma FirstFlag(cfg: Config, flags: string, end: string, reports: seq<Report>)
    requires flags != ""
    ensures flags + end == [flags[0]] + (flags[1..] + end)
    ensures FlagReports(cfg, flags) + reports == [FlagReport(cfg, flags[0])] + (FlagReports(cfg, flags[1..]) + reports)
  {
    Associate([flags[0]], flags[1..], end);
    assert [flags[0]] + flags[1..] == flags;
    Associate([FlagReport(cfg, flags[0])], FlagReports(cfg, flags[1..]), reports);
  }

  lemma OnlyFlag(cfg: Config, flags: string)
    requires flags != "" && flags[1..] == ""
    ensures flags + "" == [flags[0]] && FlagReports(cfg, flags) + [] == [FlagReport(cfg, flags[0])]
  {
    assert FlagReports(cfg, flags[1..]) == [];
  }

  lemma OneMore(cfg: Config, gives: (string, seq<Report>) -> bool, limit: nat, c: char, left: string,
                reports: seq<Report>)
    requires Prepends(cfg, gives, limit) && (IsFlag(cfg, c) || IsUnknownLetter(cfg, c))
    requires left != "" && |left| + 1 < limit && gives(left, reports)
    ensures gives([c] + left, [FlagReport(cfg, c)] + reports)
  {
  }

  lemma FlagPrepended(cfg: Config, gives: (string, seq<Report>) -> bool, limit: nat, flags: string, end: string,
                      reports: seq<Report>)
    requires Prepends(cfg, gives, limit) && flags != "" && (IsFlag(cfg, flags[0]) || IsUnknownLetter(cfg, flags[0]))
    requires flags[1..] + end != "" && |flags| + |end| < limit
    requires gives(flags[1..] + end, FlagReports(cfg, flags[1..]) + reports)
    ensures gives(flags + end, FlagReports(cfg, flags) + reports)
  {
    FirstFlag(cfg, flags, end, reports);
    var c, left, others := flags[0], flags[1..] + end, FlagReports(cfg, flags[1..]) + reports;
    OneMore(cfg, gives, limit, c, left, others);
  }

  lemma {:induction false} FlagsGive(cfg: Config, gives: (string, seq<Report>) -> bool, limit: nat, flags: string,
                                     end: string, reports: seq<Report>)
    requires Prepends(cfg, gives, limit) && AreFlags(cfg, flags) && flags + end != "" && |flags| + |end| < limit
    requires end != "" ==> gives(end, reports)
    requires end == "" ==> reports == [] && EndsWithFlag(cfg, gives)
    ensures gives(flags + end, FlagReports(cfg, flags) + reports)
  {
    if flags == "" {
      assert flags + end == end && [] + reports == reports;
    } else if flags[1..] + end == "" {
      OnlyFlag(cfg, flags);
      assert gives([flags[0]], [FlagReport(cfg, flags[0])]);
    } else {
      FlagsGive(cfg, gives, limit, flags[1..], end, reports);
      FlagPrepended(cfg, gives, limit, flags, end, reports);
    }
  }

  lemma FlagsParse(cfg: Config, ordering: Ordering, rest: seq<string>, more: seq<string>, flags: string, end: string,
                   reports: seq<Report>, elements: seq<string>, q: Parsed)
    requires IsOptionElement(rest) && rest[1..] == more && AreFlags(cfg, flags)
    requires flags + end != "" && |flags| + |end| < |rest[0]|
    requires end != "" ==> Gives(cfg, ordering, rest, end, reports, elements, q)
    requires end == "" ==> reports == [] && elements == [rest[0]] && q == Parse(cfg, ordering, more, "")
    ensures Gives(cfg, ordering, rest, flags + end, FlagReports(cfg, flags) + reports, elements, q)
  {
    var gives := (text: string, rs: seq<Report>) => Gives(cfg, ordering, rest, text, rs, elements, q);
    forall c: char, left: string, rs: seq<Report>
      | (IsFlag(cfg, c) || IsUnknownLetter(cfg, c)) && left != "" && |left| + 1 < |rest[0]|
        && Gives(cfg, ordering, rest, left, rs, elements, q)
      ensures Gives(cfg, ordering, rest, [c] + left, [FlagReport(cfg, c)] + rs, elements, q)
    {
      FirstLetterParses(cfg, ordering, rest, c, left, rs, elements, q);
    }
    if end == "" {
      forall c: char | IsFlag(cfg, c) || IsUnknownLetter(cfg, c)
        ensures Gives(cfg, ordering, rest, [c], [FlagReport(cfg, c)], elements, q)
      {
        OnlyFlagParses(cfg, ordering, rest, c, more);
      }
    }
    FlagsGive(cfg, gives, |rest[0]|, flags, end, reports);
  }

  lemma EndOfCluster(cfg: Config, ordering: Ordering, rest: seq<string>, last: Last, more: seq<string>)
    requires BeginsOption(rest, LastExtra(last), more) && |LastText(last)| < |rest[0]| && IsLast(cfg, last, more)
    requires last != Nothing
    ensures LastText(last) != ""
    ensures Gives(cfg, ordering, rest, LastText(last), LastReport(cfg, last), [rest[0]] + LastExtra(last),
                  Parse(cfg, ordering, more, ""))
  {
    LastParses(cfg, ordering, rest, last, more);
  }

  lemma NoEndOfCluster(rest: seq<string>, last: Last, more: seq<string>)
    requires BeginsOption(rest, LastExtra(last), more) && last == Nothing
    ensures rest[1..] == more && [rest[0]] + LastExtra(last) == [rest[0]] && LastText(last) == ""
  {
    assert [] + more == more;
  }

  lemma OnlyFlagParses(cfg: Config, ordering: Ordering, rest: seq<string>, c: char, more: seq<string>)
    requires IsOptionElement(rest) && rest[1..] == more && 1 < |rest[0]|
    requires IsFlag(cfg, c) || IsUnknownLetter(cfg, c)
    ensures Gives(cfg, ordering, rest, [c], [FlagReport(cfg, c)], [rest[0]], Parse(cfg, ordering, more, ""))
  {
    assert [c] + "" == [c] && [] + more == more;
    LetterScans(cfg, rest, c, "");
    assert [rest[0]] + [] == [rest[0]];
    OptionTakes(cfg, ordering, rest, [c], FlagReport(cfg, c), [], more);
  }

  lemma FirstLetterParses(cfg: Config, ordering: Ordering, rest: seq<string>, c: char, left: string,
                          reports: seq<Report>, elements: seq<string>, q: Parsed)
    requires left != "" && (IsFlag(cfg, c) || IsUnknownLetter(cfg, c))
    requires Gives(cfg, ordering, rest, left, reports, elements, q) && |left| + 1 < |rest[0]|
    ensures Gives(cfg, ordering, rest, [c] + left, [FlagReport(cfg, c)] + reports, elements, q)
  {
    var text := [c] + left;
    LetterScans(cfg, rest, c, left);
    ScanGoesOn(cfg, ordering, rest, text, ScanShort(cfg, rest, text));
    TakesMore(Parse(cfg, ordering, rest, text), [FlagReport(cfg, c)], reports, elements, q,
              Parse(cfg, ordering, rest, left));
  }

  lemma LettersAreRead(cfg: Config, rest: seq<string>, text: string)
    requires OptionFirst(rest, text) && text != "" && rest[0] == "-" + text && IsReadAsLetters(cfg, text)
    ensures ScanOption(cfg, rest, "") == ScanShort(cfg, rest, text)
  {
    var e := rest[0];
    assert e[1..] == text && e[1] == text[0];
    if cfg.longopts.Some? && cfg.longOnly {
      KnownLetter(cfg, text[0]);
      if |text| > 1 {
        var name: string :| IsName(text, name) && IsUnknown(cfg.longopts.value, name);
        NameEnds(text, name);
        LookUpMeans(cfg.longopts.value, name, true, 0);
      }
    }
  }

  lemma KnownLetter(cfg: Config, c: char)
    requires c in Body(cfg.optstring)
    ensures IndexOf(Body(cfg.optstring), c) < |Body(cfg.optstring)|
  {
    IndexInside(Body(cfg.optstring), c);
  }

  lemma ClusterGives(cfg: Config, ordering: Ordering, rest: seq<string>, flags: string, last: Last, text: string,
                     more: seq<string>)
    requires BeginsOption(rest, LastExtra(last), more) && AreFlags(cfg, flags) && IsLast(cfg, last, more)
    requires text == flags + LastText(last) && text != "" && |text| < |rest[0]|
    ensures Gives(cfg, ordering, rest, text, FlagReports(cfg, flags) + LastReport(cfg, last),
                  [rest[0]] + LastExtra(last), Parse(cfg, ordering, more, ""))
  {
    var q, elements := Parse(cfg, ordering, more, ""), [rest[0]] + LastExtra(last);
    if last == Nothing {
      NoEndOfCluster(rest, last, more);
    } else {
      EndOfCluster(cfg, ordering, rest, last, more);
    }
    FlagsParse(cfg, ordering, rest, rest[1..], flags, LastText(last), LastReport(cfg, last), elements, q);
  }

  lemma ClusterParses(cfg: Config, ordering: Ordering, rest: seq<string>, flags: string, last: Last, text: string,
                      more: seq<string>)
    requires BeginsOption(rest, LastExtra(last), more) && AreFlags(cfg, flags) && IsLast(cfg, last, more)
    requires text == flags + LastText(last) && text != "" && rest[0] == "-" + text && IsReadAsLetters(cfg, text)
    ensures Takes(Parse(cfg, ordering, rest, ""), FlagReports(cfg, flags) + LastReport(cfg, last),
                  [rest[0]] + LastExtra(last), Parse(cfg, ordering, more, ""))
  {
    LettersAreRead(cfg, rest, text);
    assert Parse(cfg, ordering, rest, "") == Parse(cfg, ordering, rest, text);
    ClusterGives(cfg, ordering, rest, flags, last, text, more);
  }

  lemma IsDashed(e: string, dashes: string, text: string)
    requires e == dashes + text && text != "" && (dashes == "--" || (dashes == "-" && text != "-"))
    ensures !IsNonOption(e) && e != "--"
  {
    assert e[0] == '-' && |e| >= 2;
    assert dashes == "-" && |e| == 2 ==> e[1] == text[0] && text == [text[0]];
  }

  lemma LongParses(cfg: Config, ordering: Ordering, rest: seq<string>, dashes: string, u: LongUse, more: seq<string>)
    requires IsItem(cfg, Long(dashes, u), more) && rest == [dashes + LongText(u)] + (LongExtra(u) + more)
    ensures Takes(Parse(cfg, ordering, rest, ""), [LongReport(cfg, cfg.longopts.value, u)],
                  [rest[0]] + LongExtra(u), Parse(cfg, ordering, more, ""))
  {
    var e, text := rest[0], LongText(u);
    IsDashed(e, dashes, text);
    assert rest[1..] == LongExtra(u) + more;
    LongScans(cfg, rest, 0, u, cfg.longOnly, more);
    if dashes == "--" {
      assert e[2..] == text;
    } else {
      assert e[1..] == text && e[1] == text[0];
      if text[0] !in Body(cfg.optstring) {
        IndexIs(Body(cfg.optstring), text[0], |Body(cfg.optstring)|);
      }
    }
    OptionTakes(cfg, ordering, rest, "", LongReport(cfg, cfg.longopts.value, u), LongExtra(u), more);
  }

  /** One item of the line. */
  lemma OptionParses(cfg: Config, ordering: Ordering, item: Item, more: seq<string>)
    requires IsItem(cfg, item, more) && !item.Operand?
    ensures Takes(Parse(cfg, ordering, Elements(item) + more, ""), ItemReports(cfg, item), Elements(item),
                  Parse(cfg, ordering, more, ""))
  {
    Associate([FirstElement(item)], Extra(item), more);
    match item
    case Long(dashes, u) => LongParses(cfg, ordering, Elements(item) + more, dashes, u, more);
    case Letters(flags, last) =>
      var rest := Elements(item) + more;
      assert rest[0] == FirstElement(item) && rest[1..] == LastExtra(last) + more;
      IsDashed(rest[0], "-", flags + LastText(last));
      ClusterParses(cfg, ordering, rest, flags, last, flags + LastText(last), more);
  }

  // ---------------------------------------------------------------- whole lines

  function ElementsOf(items: seq<Item>): seq<string> {
    if items == [] then [] else Elements(items[0]) + ElementsOf(items[1..])
  }

  /** Items, each before the elements of the others and what comes after them. */
  ghost predicate AreItems(cfg: Config, items: seq<Item>, after: seq<string>) {
    items == [] || (IsItem(cfg, items[0], ElementsOf(items[1..]) + after) && AreItems(cfg, items[1..], after))
  }

  /** What follows the items: nothing, or `--` and anything. */
  predicate IsAfter(after: seq<string>) {
    after == [] || after[0] == "--"
  }

  /** What an item adds to the parse of the others: its reports and its elements among those before optind, or an
      operand that is kept for later. */
  function Before(cfg: Config, ordering: Ordering, item: Item, q: Parsed): Parsed {
    match item
    case Operand(text) =>
      if ordering == ReturnInOrder then
        q.(reports := [Report(NON_OPTION, Some(text), None, None, None)] + q.reports, options := [text] + q.options)
      else q.(others := [text] + q.others)
    case _ => q.(reports := ItemReports(cfg, item) + q.reports, options := Elements(item) + q.options)
  }

  /** What a line of items means under an ordering: the reports, the elements that end up before optind, and those
      after it. */
  function Expected(cfg: Config, ordering: Ordering, items: seq<Item>, after: seq<string>): Parsed {
    if items == [] then if after == [] then Parsed([], [], []) else Parsed([], [after[0]], after[1..])
    else if items[0].Operand? && ordering == RequireOrder then Parsed([], [], ElementsOf(items) + after)
    else Before(cfg, ordering, items[0], Expected(cfg, ordering, items[1..], after))
  }

  lemma OperandParses(cfg: Config, ordering: Ordering, text: string, more: seq<string>)
    requires text == "" || text == "-" || text[0] != '-'
    ensures Parse(cfg, ordering, [text] + more, "")
            == if ordering == RequireOrder then Parsed([], [], [text] + more)
               else Before(cfg, ordering, Operand(text), Parse(cfg, ordering, more, ""))
  {
    assert ([text] + more)[1..] == more;
  }

  lemma ItemParses(cfg: Config, ordering: Ordering, item: Item, more: seq<string>)
    requires IsItem(cfg, item, more)
    ensures Parse(cfg, ordering, Elements(item) + more, "")
            == if item.Operand? && ordering == RequireOrder then Parsed([], [], Elements(item) + more)
               else Before(cfg, ordering, item, Parse(cfg, ordering, more, ""))
  {
    if item.Operand? {
      OperandParses(cfg, ordering, item.text, more);
      assert Elements(item) == [item.text];
    } else {
      OptionParses(cfg, ordering, item, more);
    }
  }

  /** The in-order parse of a line reports its items. */
  lemma {:induction false} LineParses(cfg: Config, ordering: Ordering, items: seq<Item>, after: seq<string>)
    requires AreItems(cfg, items, after) && IsAfter(after)
    ensures Parse(cfg, ordering, ElementsOf(items) + after, "") == Expected(cfg, ordering, items, after)
  {
    if items == [] {
      assert [] + after == after;
    } else {
      Associate(Elements(items[0]), ElementsOf(items[1..]), after);
      LineParses(cfg, ordering, items[1..], after);
      ItemParses(cfg, ordering, items[0], ElementsOf(items[1..]) + after);
    }
  }

  /** A run over a written line reports exactly its options, each with its argument, in their order, and leaves the
      options before optind and the operands after it. */
  lemma WrittenLineReports(cfg: Config, st: State, pre: seq<string>, items: seq<Item>, after: seq<string>,
                           calls: seq<Called>)
    requires Fresh(st) && |pre| == Start(st) && NoOptionIsDone(cfg) && AreItems(cfg, items, after) && IsAfter(after)
    requires IsRun(ParserStep(cfg), st, pre + (ElementsOf(items) + after), calls)
    ensures var p, w := Expected(cfg, OrderingOf(cfg), items, after), calls[|calls| - 1].world;
            ReportsOf(calls) == p.reports && w.argv == pre + p.options + p.others
            && w.st.optind == |pre| + |p.options|
  {
    LineParses(cfg, OrderingOf(cfg), items, after);
    LineRuns(cfg, st, pre, ElementsOf(items) + after, calls, Expected(cfg, OrderingOf(cfg), items, after));
  }

  lemma LineRuns(cfg: Config, st: State, pre: seq<string>, line: seq<string>, calls: seq<Called>, p: Parsed)
    requires Fresh(st) && |pre| == Start(st) && NoOptionIsDone(cfg) && IsRun(ParserStep(cfg), st, pre + line, calls)
    requires Parse(cfg, OrderingOf(cfg), line, "") == p
    ensures var w := calls[|calls| - 1].world;
            ReportsOf(calls) == p.reports && w.argv == pre + p.options + p.others
            && w.st.optind == |pre| + |p.options|
  {
    AfterProgram(pre, line, pre + line);
    WholeRun(cfg, st, pre + line, calls);
  }

  lemma AfterProgram(pre: seq<string>, line: seq<string>, argv: seq<string>)
    requires argv == pre + line
    ensures argv[..|pre|] == pre && argv[|pre|..] == line
  {
  }

  // ---------------------------------------------------------------- every line

  lemma NameOf(text: string) returns (name: string)
    ensures IsName(text, name) && name == text[..IndexOf(text, '=')]
    ensures name != text ==> |name| < |text| && text == name + "=" + text[|name| + 1..]
  {
    var end := IndexOf(text, '=');
    IndexIsFirst(text, '=');
    name := text[..end];
    if end < |text| {
      assert text == name + "=" + text[end + 1..];
    } else {
      assert name == text;
    }
  }

  /** A long option found by its name, with or without a value, before these elements. */
  lemma FoundIsUse(opts: seq<LongOption>, longOnly: bool, text: string, name: string, i: nat, rest: seq<string>)
    returns (u: LongUse, more: seq<string>)
    requires IsName(text, name) && IsSpelled(opts, longOnly, name, i)
    requires name != text ==> |name| < |text| && text == name + "=" + text[|name| + 1..]
    ensures IsLongUse(opts, longOnly, u, more) && LongText(u) == text && rest == LongExtra(u) + more
    ensures !u.Unknown?
  {
    more := rest;
    if name != text {
      var value := text[|name| + 1..];
      u := if opts[i].hasArg == 0 then Refusing(name, i, value) else With(name, i, value);
    } else if opts[i].hasArg != 1 {
      u := Bare(name, i);
    } else if rest == [] {
      u := Lacking(name, i);
    } else {
      u, more := Then(name, i, rest[0]), rest[1..];
    }
  }

  /** Every text is a use of a long option, and an unknown one if that is what its name is. */
  lemma EveryLongUse(opts: seq<LongOption>, longOnly: bool, text: string, rest: seq<string>)
    returns (u: LongUse, more: seq<string>)
    ensures IsLongUse(opts, longOnly, u, more) && LongText(u) == text && rest == LongExtra(u) + more
    ensures u.Unknown? ==> exists name: string :: IsName(text, name) && IsUnknown(opts, name)
  {
    var name := NameOf(text);
    match LookUp(opts, name, longOnly)
    case NotFound =>
      LookUpMeans(opts, name, longOnly, 0);
      u, more := Unknown(text), rest;
    case AmbiguousName =>
      LookUpMeans(opts, name, longOnly, 0);
      u, more := Unclear(text), rest;
    case Found(i) =>
      LookUpMeans(opts, name, longOnly, i);
      u, more := FoundIsUse(opts, longOnly, text, name, i, rest);
  }

  lemma IsDeclared(cfg: Config, c: char) returns (after: string)
    requires c in Body(cfg.optstring)
    ensures Declares(cfg, c, after)
  {
    var s := Body(cfg.optstring);
    IndexInside(s, c);
    IndexIsFirst(s, c);
    var t := IndexOf(s, c);
    after := s[t + 1..];
    assert s == s[..t] + [c] + after && c !in s[..t];
  }

  /** A letter that is no flag ends its cluster. */
  lemma EndsCluster(cfg: Config, c: char, left: string, rest: seq<string>) returns (last: Last, more: seq<string>)
    requires !IsFlag(cfg, c) && !IsUnknownLetter(cfg, c)
    ensures IsLast(cfg, last, more) && LastText(last) == [c] + left && rest == LastExtra(last) + more
  {
    var after := IsDeclared(cfg, c);
    if ":" <= after {
      last, more := ArgumentEnds(cfg, c, after, left, rest);
    } else {
      assert c == 'W' && AnnouncesWord(cfg);
      last, more := WordEnds(cfg, left, rest);
    }
  }

  lemma ArgumentEnds(cfg: Config, c: char, after: string, left: string, rest: seq<string>)
    returns (last: Last, more: seq<string>)
    requires IsLetter(c) && Declares(cfg, c, after) && ":" <= after
    ensures IsLast(cfg, last, more) && LastText(last) == [c] + left && rest == LastExtra(last) + more
  {
    more := rest;
    assert left == "" ==> [c] + left == [c];
    if left != "" {
      last := Attached(c, left);
    } else if "::" <= after {
      last := Alone(c);
    } else if rest == [] {
      last := WithoutValue(c);
    } else {
      last, more := Following(c, rest[0]), rest[1..];
    }
  }

  lemma WordEnds(cfg: Config, left: string, rest: seq<string>) returns (last: Last, more: seq<string>)
    requires AnnouncesWord(cfg)
    ensures IsLast(cfg, last, more) && LastText(last) == "W" + left && rest == LastExtra(last) + more
  {
    if left != "" {
      var u, behind := EveryLongUse(cfg.longopts.value, false, left, rest);
      last, more := WordAttached(u), behind;
    } else if rest == [] {
      last, more := WithoutWord, rest;
    } else {
      var u, behind := EveryLongUse(cfg.longopts.value, false, rest[0], rest[1..]);
      last, more := WordNext(u), behind;
      Associate([rest[0]], LongExtra(u), behind);
    }
  }

  /** Every text is a cluster. */
  lemma {:induction false} EveryCluster(cfg: Config, text: string, rest: seq<string>)
    returns (flags: string, last: Last, more: seq<string>)
    ensures AreFlags(cfg, flags) && IsLast(cfg, last, more) && flags + LastText(last) == text
    ensures rest == LastExtra(last) + more
    decreases |text|
  {
    if text == "" {
      flags, last, more := "", Nothing, rest;
    } else if IsFlag(cfg, text[0]) || IsUnknownLetter(cfg, text[0]) {
      var others: string;
      others, last, more := EveryCluster(cfg, text[1..], rest);
      flags := [text[0]] + others;
      Associate([text[0]], others, LastText(last));
    } else {
      last, more := EndsCluster(cfg, text[0], text[1..], rest);
      flags := "";
    }
  }

  /** The long option that an element is read as, unless it is read in letters. */
  lemma EveryLongItem(cfg: Config, dashes: string, text: string, rest: seq<string>)
    returns (item: Item, more: seq<string>)
    requires cfg.longopts.Some? && text != "" && (dashes == "--" || (dashes == "-" && cfg.longOnly && text[0] != '-'))
    requires dashes == "-" ==> |text| > 1 || text[0] !in Body(cfg.optstring)
    ensures (item.Long? && IsItem(cfg, item, more) && dashes + text == FirstElement(item) && rest == Extra(item) + more)
            || (dashes == "-" && IsReadAsLetters(cfg, text))
  {
    var u, behind := EveryLongUse(cfg.longopts.value, cfg.longOnly, text, rest);
    item, more := Long(dashes, u), behind;
  }

  lemma EveryLettersItem(cfg: Config, text: string, rest: seq<string>) returns (item: Item, more: seq<string>)
    requires text != "" && text != "-" && IsReadAsLetters(cfg, text)
    ensures item.Letters? && IsItem(cfg, item, more) && "-" + text == FirstElement(item) && rest == Extra(item) + more
  {
    var flags, last, behind := EveryCluster(cfg, text, rest);
    item, more := Letters(flags, last), behind;
  }

  /** Every element that is read as options is an item, with the elements that it takes. */
  lemma EveryOption(cfg: Config, e: string, rest: seq<string>) returns (item: Item, more: seq<string>)
    requires !IsNonOption(e) && e != "--"
    ensures IsItem(cfg, item, more) && e == FirstElement(item) && rest == Extra(item) + more
  {
    var text := e[1..];
    assert e == "-" + text && text[0] == e[1];
    if cfg.longopts.Some? && text[0] == '-' {
      assert e == "--" + e[2..];
      item, more := EveryLongItem(cfg, "--", e[2..], rest);
    } else if cfg.longopts.Some? && cfg.longOnly && (|text| > 1 || text[0] !in Body(cfg.optstring)) {
      item, more := EveryLongItem(cfg, "-", text, rest);
      if !item.Long? || !IsItem(cfg, item, more) || e != FirstElement(item) || rest != Extra(item) + more {
        item, more := EveryLettersItem(cfg, text, rest);
      }
    } else {
      item, more := EveryLettersItem(cfg, text, rest);
    }
  }

  lemma FirstItem(e: string, tail: seq<string>, item: Item, items: seq<Item>, more: seq<string>, after: seq<string>)
    requires e == FirstElement(item) && tail == Extra(item) + more && more == ElementsOf(items) + after
    ensures [e] + tail == ElementsOf([item] + items) + after && |more| <= |tail|
  {
    Associate([e], Extra(item), more);
    Associate(Elements(item), ElementsOf(items), after);
    assert ([item] + items)[1..] == items;
  }

  /** Every argument vector is a written line, so that the law above speaks of all of them. */
  lemma {:induction false} EveryLineIsWritten(cfg: Config, line: seq<string>)
    returns (items: seq<Item>, after: seq<string>)
    ensures AreItems(cfg, items, after) && IsAfter(after) && line == ElementsOf(items) + after
    decreases |line|
  {
    if line == [] || line[0] == "--" {
      items, after := [], line;
    } else {
      var item, more := EveryItem(cfg, line[0], line[1..]);
      var others, behind := EveryLineIsWritten(cfg, more);
      FirstItem(line[0], line[1..], item, others, more, behind);
      items, after := [item] + others, behind;
      assert items[1..] == others && line == [line[0]] + line[1..];
    }
  }

  lemma EveryItem(cfg: Config, e: string, rest: seq<string>) returns (item: Item, more: seq<string>)
    requires e != "--"
    ensures IsItem(cfg, item, more) && e == FirstElement(item) && rest == Extra(item) + more && |more| <= |rest|
  {
    if IsNonOption(e) {
      item, more := Operand(e), rest;
    } else {
      item, more := EveryOption(cfg, e, rest);
    }
  }
}
