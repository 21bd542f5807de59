/** The ngen command lines the launcher builds for its five actions, and a reader that
    recovers the action from a command line, which shows that no two different actions (up to
    the scenario bits ngen does not know) produce the same command line. */
module CommandLine {
  import opened Wrappers

  /** `NgenScenarios`, a `[Flags]` enumeration over `short`. */
  type Scenarios = bv16

  const Default: Scenarios := 0
  const Debug: Scenarios := 1
  const Profile: Scenarios := 2
  const NoDependencies: Scenarios := 4

  /** The scenario bits that have a name. */
  const KnownScenarios: Scenarios := Debug | Profile | NoDependencies

  /** `Enum.HasFlag`: every bit of `flag` is set in `s`. */
  predicate HasFlag(s: Scenarios, flag: Scenarios) {
    s & flag == flag
  }

  /** What an action asks ngen to do. */
  datatype Action =
    | Install(assembly: string, exeConfig: Option<string>, appBase: Option<string>, scenarios: Scenarios)
    | Uninstall(assembly: string, exeConfig: Option<string>, appBase: Option<string>, scenarios: Scenarios)
    | Display(assemblyName: string)
    | DisplayAll
    | UpdateAll
  {
    /** Install and uninstall work on an assembly and its local dependencies. */
    predicate TracksAssemblies() {
      Install? || Uninstall?
    }
  }

  const ExeConfigSwitch: string := " /ExeConfig:\""
  const AppBaseSwitch: string := " /AppBase:\""
  const DebugSwitch: string := " /Debug"
  const ProfileSwitch: string := " /Profile"
  const NoDependenciesSwitch: string := " /NoDependencies"

  /** `"` + `v` + `"`: the quoted form `string.Format` produces for `"{0}"`. */
  function Quoted(v: string): string {
    "\"" + v + "\""
  }

  /** `BuildExtraCmdLine(exeConfig, appBase, scenarios)`. */
  function BuildExtraCmdLine(exeConfig: Option<string>, appBase: Option<string>, scenarios: Scenarios): (r: string)
    ensures exeConfig.None? && appBase.None? && scenarios & KnownScenarios == 0 ==> r == ""
  {
    ValueSwitch(ExeConfigSwitch, exeConfig) + ValueSwitch(AppBaseSwitch, appBase) +
    FlagSwitch(DebugSwitch, HasFlag(scenarios, Debug)) + FlagSwitch(ProfileSwitch, HasFlag(scenarios, Profile)) +
    FlagSwitch(NoDependenciesSwitch, HasFlag(scenarios, NoDependencies))
  }

  /** A value switch followed by the value and a closing quote, when there is a value. */
  function ValueSwitch(switch: string, v: Option<string>): string {
    if v.Some? then switch + v.value + "\"" else ""
  }

  /** A flag switch, when the flag is on. */
  function FlagSwitch(switch: string, on: bool): string {
    if on then switch else ""
  }

  /** The command line each action of `NgenLauncher` passes to ngen. */
  function LauncherCommandLine(a: Action): string {
    match a
    case Install(x, c, b, s) => "install " + Quoted(x) + " /nologo" + BuildExtraCmdLine(c, b, s)
    case Uninstall(x, c, b, s) => "uninstall " + Quoted(x) + " /nologo /verbose" + BuildExtraCmdLine(c, b, s)
    case Display(x) => "display " + Quoted(x) + " /nologo"
    case DisplayAll => "display /nologo"
    case UpdateAll => "update /nologo"
  }

  // Reading a command line back.

  /** `s` with the prefix `w` removed, if it starts with `w`. */
  function After(s: string, w: string): (r: Option<string>)
    ensures r.Some? <==> |w| <= |s| && s[..|w|] == w
    ensures r.Some? ==> s == w + r.value
  {
    if |w| <= |s| && s[..|w|] == w then Some(s[|w|..]) else None
  }

  /** Splits `s` at its first '"': the text before it and the text after it. */
  function UntilQuote(s: string): (r: Option<(string, string)>)
    ensures r.Some? ==> '"' !in r.value.0 && s == r.value.0 + "\"" + r.value.1
    ensures r.None? <==> '"' !in s
    decreases |s|
  {
    if |s| == 0 then None
    else if s[0] == '"' then Some(([], s[1..]))
    else
      match UntilQuote(s[1..])
      case None => None
      case Some((v, rest)) => Some(([s[0]] + v, rest))
  }

  /** An optional quoted switch value at the start of `s`, and what follows it. */
  function ReadValue(s: string, switch: string): Option<(Option<string>, string)> {
    match After(s, switch)
    case None => Some((None, s))
    case Some(t) =>
      match UntilQuote(t)
      case None => None
      case Some((v, rest)) => Some((Some(v), rest))
  }

  /** An optional flag switch at the start of `s`: the bit it stands for and what follows. */
  function ReadFlag(s: string, switch: string): (bool, string) {
    match After(s, switch)
    case None => (false, s)
    case Some(t) => (true, t)
  }

  /** The scenarios holding exactly the named bits whose switches were read. */
  function FlagSet(debug: bool, profile: bool, noDependencies: bool): Scenarios {
    (if debug then Debug else 0) | (if profile then Profile else 0) | (if noDependencies then NoDependencies else 0)
  }

  /** The options of an install or uninstall command line, read back from its tail. */
  function ParseExtra(s: string): Option<(Option<string>, Option<string>, Scenarios)> {
    ReadOptions(s, [ExeConfigSwitch, AppBaseSwitch], [DebugSwitch, ProfileSwitch, NoDependenciesSwitch])
  }

  /** Reads the two value switches `values`, then the three flag switches `flags`, in order. */
  function ReadOptions(s: string, values: seq<string>, flags: seq<string>): Option<(Option<string>, Option<string>, Scenarios)>
    requires |values| == 2 && |flags| == 3
  {
    var exeConfig := ReadValue(s, values[0]);
    if exeConfig.None? then None
    else
      var appBase := ReadValue(exeConfig.value.1, values[1]);
      if appBase.None? then None
      else
        match ReadFlags(appBase.value.1, flags)
        case None => None
        case Some(scenarios) => Some((exeConfig.value.0, appBase.value.0, scenarios))
  }

  /** Reads the three flag switches `flags`, in order, up to the end of `s`. */
  function ReadFlags(s: string, flags: seq<string>): Option<Scenarios>
    requires |flags| == 3
  {
    var debug := ReadFlag(s, flags[0]);
    var profile := ReadFlag(debug.1, flags[1]);
    var noDependencies := ReadFlag(profile.1, flags[2]);
    if noDependencies.1 == [] then Some(FlagSet(debug.0, profile.0, noDependencies.0)) else None
  }

  /** The quoted target after `prefix`, when `suffix` follows its closing quote; with the text
      after `suffix`. */
  function ReadTarget(s: string, prefix: string, suffix: string): Option<(string, string)> {
    match After(s, prefix)
    case None => None
    case Some(t) =>
      match UntilQuote(t)
      case None => None
      case Some((x, rest)) =>
        match After(rest, suffix)
        case None => None
        case Some(tail) => Some((x, tail))
  }

  /** An install (or uninstall) of the target read by `target`, with the options after it. */
  function WithOptions(target: Option<(string, string)>, install: bool): Option<Action> {
    match target
    case None => None
    case Some((x, tail)) =>
      match ParseExtra(tail)
      case None => None
      case Some((c, b, f)) => Some(if install then Install(x, c, b, f) else Uninstall(x, c, b, f))
  }

  /** The action a launcher command line asks for. */
  function ParseCommandLine(s: string): Option<Action> {
    if s == "display /nologo" then Some(DisplayAll)
    else if s == "update /nologo" then Some(UpdateAll)
    else if After(s, "install \"").Some? then WithOptions(ReadTarget(s, "install \"", " /nologo"), true)
    else if After(s, "uninstall \"").Some? then WithOptions(ReadTarget(s, "uninstall \"", " /nologo /verbose"), false)
    else
      match ReadTarget(s, "display \"", " /nologo")
      case Some((x, tail)) => if tail == [] then Some(Display(x)) else None
      case None => None
  }

  /** No quote character in `v`, if present. */
  predicate QuoteFree(v: Option<string>) {
    v.None? || '"' !in v.value
  }

  /** The strings of `a` carry no quote character, so the command line can be read back. */
  predicate Readable(a: Action) {
    match a
    case Install(x, c, b, _) => '"' !in x && QuoteFree(c) && QuoteFree(b)
    case Uninstall(x, c, b, _) => '"' !in x && QuoteFree(c) && QuoteFree(b)
    case Display(x) => '"' !in x
    case DisplayAll => true
    case UpdateAll => true
  }

  /** `a` with the scenario bits ngen has no switch for cleared. */
  function KnownPart(a: Action): Action {
    match a
    case Install(x, c, b, s) => Install(x, c, b, s & KnownScenarios)
    case Uninstall(x, c, b, s) => Uninstall(x, c, b, s & KnownScenarios)
    case _ => a
  }

  /** A quoted value without quotes reads back as itself. */
  lemma {:induction false} UntilQuoteOfValue(v: string, rest: string)
    requires '"' !in v
    ensures UntilQuote(v + "\"" + rest) == Some((v, rest))
    decreases |v|
  {
    if |v| == 0 {
      assert v + "\"" + rest == "\"" + rest;
    } else {
      assert (v + "\"" + rest)[1..] == v[1..] + "\"" + rest;
      assert v[0] in v;
      UntilQuoteOfValue(v[1..], rest);
      assert [v[0]] + v[1..] == v;
    }
  }

  /** `rest` does not start with `w`, because they differ in their third character. */
  lemma NotAfter(rest: string, w: string)
    requires |w| >= 3 && (|rest| < 3 || rest[2] != w[2])
    ensures After(rest, w).None?
  {
    if |w| <= |rest| {
      assert rest[..|w|][2] != w[2];
    }
  }

  lemma AfterPrefix(w: string, rest: string)
    ensures After(w + rest, w) == Some(rest)
  {
    assert (w + rest)[..|w|] == w;
    assert (w + rest)[|w|..] == rest;
  }

  /** An optional flag switch in front of `rest` reads back as its bit. */
  lemma ReadFlagOf(has: bool, switch: string, rest: string)
    requires |switch| >= 3
    requires !has ==> |rest| < 3 || rest[2] != switch[2]
    ensures ReadFlag(FlagSwitch(switch, has) + rest, switch) == (has, rest)
  {
    if has {
      AfterPrefix(switch, rest);
    } else {
      assert "" + rest == rest;
      NotAfter(rest, switch);
    }
  }

  /** An optional quoted switch value in front of `rest` reads back as itself. */
  lemma ReadValueOf(v: Option<string>, switch: string, rest: string)
    requires |switch| >= 3 && QuoteFree(v)
    requires v.None? ==> |rest| < 3 || rest[2] != switch[2]
    ensures ReadValue(ValueSwitch(switch, v) + rest, switch) == Some((v, rest))
  {
    if v.Some? {
      assert switch + v.value + "\"" + rest == switch + (v.value + "\"" + rest);
      AfterPrefix(switch, v.value + "\"" + rest);
      UntilQuoteOfValue(v.value, rest);
    } else {
      assert "" + rest == rest;
      NotAfter(rest, switch);
    }
  }

  /** Every switch starts with " /" followed by its own letter. */
  predicate StartsWithSwitchLetter(s: string, letters: set<char>) {
    |s| == 0 || (|s| >= 3 && s[2] in letters)
  }

  lemma SwitchLetter(has: bool, switch: string, rest: string, letters: set<char>)
    requires |switch| >= 3 && switch[2] in letters
    requires StartsWithSwitchLetter(rest, letters)
    ensures StartsWithSwitchLetter(FlagSwitch(switch, has) + rest, letters)
  {
    if has {
      assert (switch + rest)[2] == switch[2];
    } else {
      assert "" + rest == rest;
    }
  }

  lemma ValueLetter(v: Option<string>, switch: string, rest: string, letters: set<char>)
    requires |switch| >= 3 && switch[2] in letters
    requires StartsWithSwitchLetter(rest, letters)
    ensures StartsWithSwitchLetter(ValueSwitch(switch, v) + rest, letters)
  {
    if v.Some? {
      assert (switch + v.value + "\"" + rest)[2] == switch[2];
    } else {
      assert "" + rest == rest;
    }
  }

  /** The letter after " /" of each switch. */
  lemma SwitchLetters()
    ensures |ExeConfigSwitch| >= 3 && ExeConfigSwitch[2] == 'E'
    ensures |AppBaseSwitch| >= 3 && AppBaseSwitch[2] == 'A'
    ensures |DebugSwitch| >= 3 && DebugSwitch[2] == 'D'
    ensures |ProfileSwitch| >= 3 && ProfileSwitch[2] == 'P'
    ensures |NoDependenciesSwitch| >= 3 && NoDependenciesSwitch[2] == 'N'
  {
  }

  /** The bits read back are the named bits of the scenarios. */
  lemma FlagBits(s: Scenarios)
    ensures FlagSet(HasFlag(s, Debug), HasFlag(s, Profile), HasFlag(s, NoDependencies)) == s & KnownScenarios
  {
  }

  lemma Regroup(a: string, b: string, c: string, d: string, e: string)
    ensures a + b + c + d + e == a + (b + (c + (d + (e + []))))
  {
    assert e + [] == e;
  }

  /** Round trip: the options are read back from the tail `BuildExtraCmdLine` produces, except
      the scenario bits that have no switch. */
  lemma ExtraRoundTrip(exeConfig: Option<string>, appBase: Option<string>, scenarios: Scenarios)
    requires QuoteFree(exeConfig) && QuoteFree(appBase)
    ensures ParseExtra(BuildExtraCmdLine(exeConfig, appBase, scenarios)) == Some((exeConfig, appBase, scenarios & KnownScenarios))
  {
    SwitchesReadBack(exeConfig, appBase, HasFlag(scenarios, Debug), HasFlag(scenarios, Profile), HasFlag(scenarios, NoDependencies));
    FlagBits(scenarios);
  }

  /** The switches for two values and three flags read back as those values and flags. */
  lemma SwitchesReadBack(exeConfig: Option<string>, appBase: Option<string>, hd: bool, hp: bool, hn: bool)
    requires QuoteFree(exeConfig) && QuoteFree(appBase)
    ensures ParseExtra(ValueSwitch(ExeConfigSwitch, exeConfig) + ValueSwitch(AppBaseSwitch, appBase) +
                       FlagSwitch(DebugSwitch, hd) + FlagSwitch(ProfileSwitch, hp) + FlagSwitch(NoDependenciesSwitch, hn))
            == Some((exeConfig, appBase, FlagSet(hd, hp, hn)))
  {
    var pc, pb := ValueSwitch(ExeConfigSwitch, exeConfig), ValueSwitch(AppBaseSwitch, appBase);
    var pd, pp, pn := FlagSwitch(DebugSwitch, hd), FlagSwitch(ProfileSwitch, hp), FlagSwitch(NoDependenciesSwitch, hn);
    var n := pn + [];
    var p := pp + n;
    var d := pd + p;
    var b := pb + d;
    var c := pc + b;
    Regroup(pc, pb, pd, pp, pn);
    SwitchLetters();
    SwitchLetter(hn, NoDependenciesSwitch, [], {'N'});
    SwitchLetter(hp, ProfileSwitch, n, {'N', 'P'});
    SwitchLetter(hd, DebugSwitch, p, {'N', 'P', 'D'});
    ValueLetter(appBase, AppBaseSwitch, d, {'N', 'P', 'D', 'A'});
    ReadValueOf(exeConfig, ExeConfigSwitch, b);
    ReadValueOf(appBase, AppBaseSwitch, d);
    ReadFlagOf(hd, DebugSwitch, p);
    ReadFlagOf(hp, ProfileSwitch, n);
    ReadFlagOf(hn, NoDependenciesSwitch, []);
    var values, flags := [ExeConfigSwitch, AppBaseSwitch], [DebugSwitch, ProfileSwitch, NoDependenciesSwitch];
    ReadOptionsSteps(c, values, flags, exeConfig, b, appBase, d, hd, p, hp, n, hn);
  }

  /** `ReadOptions` chains the five readers. */
  lemma ReadOptionsSteps(s: string, values: seq<string>, flags: seq<string>, c: Option<string>, s1: string, b: Option<string>, s2: string,
                         d: bool, s3: string, p: bool, s4: string, n: bool)
    requires |values| == 2 && |flags| == 3
    requires ReadValue(s, values[0]) == Some((c, s1))
    requires ReadValue(s1, values[1]) == Some((b, s2))
    requires ReadFlag(s2, flags[0]) == (d, s3)
    requires ReadFlag(s3, flags[1]) == (p, s4)
    requires ReadFlag(s4, flags[2]) == (n, [])
    ensures ReadOptions(s, values, flags) == Some((c, b, FlagSet(d, p, n)))
  {
    ReadFlagsSteps(s2, flags, d, s3, p, s4, n);
  }

  /** `ReadFlags` chains the three flag readers. */
  lemma ReadFlagsSteps(s: string, flags: seq<string>, d: bool, s3: string, p: bool, s4: string, n: bool)
    requires |flags| == 3
    requires ReadFlag(s, flags[0]) == (d, s3)
    requires ReadFlag(s3, flags[1]) == (p, s4)
    requires ReadFlag(s4, flags[2]) == (n, [])
    ensures ReadFlags(s, flags) == Some(FlagSet(d, p, n))
  {
  }

  /** `s` does not start with `w`: they differ at position `k`. */
  lemma NotAfterAt(s: string, w: string, k: nat)
    requires k < |w| && (|s| <= k || s[k] != w[k])
    ensures After(s, w).None?
  {
    if |w| <= |s| {
      assert s[..|w|][k] != w[k];
    }
  }

  /** A quoted target between `prefix` and `suffix` reads back as itself. */
  lemma ReadTargetOf(prefix: string, x: string, suffix: string, tail: string)
    requires '"' !in x
    ensures ReadTarget(prefix + x + "\"" + suffix + tail, prefix, suffix) == Some((x, tail))
  {
    var s := prefix + x + "\"" + suffix + tail;
    assert s == prefix + (x + "\"" + (suffix + tail));
    AfterPrefix(prefix, x + "\"" + (suffix + tail));
    UntilQuoteOfValue(x, suffix + tail);
    AfterPrefix(suffix, tail);
  }

  lemma InstallRoundTrip(x: string, c: Option<string>, b: Option<string>, f: Scenarios)
    requires '"' !in x && QuoteFree(c) && QuoteFree(b)
    ensures ParseCommandLine(LauncherCommandLine(Install(x, c, b, f))) == Some(Install(x, c, b, f & KnownScenarios))
  {
    var extra := BuildExtraCmdLine(c, b, f);
    var s := LauncherCommandLine(Install(x, c, b, f));
    InstallLine(x, c, b, f);
    ReadTargetOf("install \"", x, " /nologo", extra);
    InstallLineParses(s);
    ExtraRoundTrip(c, b, f);
  }

  lemma InstallLine(x: string, c: Option<string>, b: Option<string>, f: Scenarios)
    ensures LauncherCommandLine(Install(x, c, b, f)) == "install \"" + x + "\"" + " /nologo" + BuildExtraCmdLine(c, b, f)
  {
  }

  /** A line starting with the install prefix is read as an install and nothing else. */
  lemma InstallLineParses(s: string)
    requires After(s, "install \"").Some?
    ensures ParseCommandLine(s) == WithOptions(ReadTarget(s, "install \"", " /nologo"), true)
  {
    assert s[..9] == "install \"";
    assert s[0] == 'i' by {
      assert s[0] == s[..9][0];
    }
    assert "display /nologo"[0] == 'd';
    assert "update /nologo"[0] == 'u';
  }

  lemma UninstallRoundTrip(x: string, c: Option<string>, b: Option<string>, f: Scenarios)
    requires '"' !in x && QuoteFree(c) && QuoteFree(b)
    ensures ParseCommandLine(LauncherCommandLine(Uninstall(x, c, b, f))) == Some(Uninstall(x, c, b, f & KnownScenarios))
  {
    var extra := BuildExtraCmdLine(c, b, f);
    var s := LauncherCommandLine(Uninstall(x, c, b, f));
    UninstallLine(x, c, b, f);
    ReadTargetOf("uninstall \"", x, " /nologo /verbose", extra);
    UninstallLineParses(s);
    ExtraRoundTrip(c, b, f);
  }

  lemma UninstallLine(x: string, c: Option<string>, b: Option<string>, f: Scenarios)
    ensures LauncherCommandLine(Uninstall(x, c, b, f)) == "uninstall \"" + x + "\"" + " /nologo /verbose" + BuildExtraCmdLine(c, b, f)
  {
  }

  /** A line starting with the uninstall prefix is read as an uninstall and nothing else. */
  lemma UninstallLineParses(s: string)
    requires After(s, "uninstall \"").Some?
    ensures ParseCommandLine(s) == WithOptions(ReadTarget(s, "uninstall \"", " /nologo /verbose"), false)
  {
    assert s[..11] == "uninstall \"";
    assert s[0] == 'u' && s[1] == 'n' by {
      assert s[0] == s[..11][0] && s[1] == s[..11][1];
    }
    assert "display /nologo"[0] == 'd';
    assert "update /nologo"[1] == 'p';
    NotAfterAt(s, "install \"", 0);
  }

  lemma DisplayRoundTrip(x: string)
    requires '"' !in x
    ensures ParseCommandLine(LauncherCommandLine(Display(x))) == Some(Display(x))
  {
    var s := LauncherCommandLine(Display(x));
    assert s == "display \"" + x + "\"" + " /nologo" + [];
    assert s[0] == 'd' && s[8] == '"';
    NotAfterAt(s, "install \"", 0);
    NotAfterAt(s, "uninstall \"", 0);
    ReadTargetOf("display \"", x, " /nologo", []);
  }

  /** Round trip: every launcher command line whose strings carry no quote character reads back
      as the action that produced it, up to the scenario bits without a switch. Different such
      actions therefore never produce the same command line. */
  lemma CommandLineRoundTrip(a: Action)
    requires Readable(a)
    ensures ParseCommandLine(LauncherCommandLine(a)) == Some(KnownPart(a))
  {
    match a
    case Install(x, c, b, f) => InstallRoundTrip(x, c, b, f);
    case Uninstall(x, c, b, f) => UninstallRoundTrip(x, c, b, f);
    case Display(x) => DisplayRoundTrip(x);
    case DisplayAll =>
    case UpdateAll =>
  }
}
