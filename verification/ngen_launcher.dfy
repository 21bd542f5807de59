/** `NgenLauncher`: runs one ngen action at a time over a console process, forwards its output
    lines, reports progress through the expected list of local assemblies, and reports the exit
    code.

    The state is an immutable record and every public operation and every callback is a
    function from a state to a `Step`: the state after the call, the events raised to
    subscribers, the requests made to the console-process library, and the exception thrown,
    if any. The process library is not modelled: starting it is a `Spawn` request, and what it
    reports back (output lines, its exit) are the inputs `OnConsoleOutput` and
    `OnConsoleExited`. */
module NgenLauncher {
  import opened Wrappers
  import opened ConsoleApp
  import opened Paths
  import opened CommandLine
  import opened DependencyGraph
  import AssemblyHelper
  import AssemblyNameComparer
  import ProgressPattern
  import Linq

  /** Events raised to subscribers: `Output`, `Progress` and `Exit` with their arguments. */
  datatype Notice =
    | Output(line: string)
    | Progress(assembly: string, current: int, total: int)
    | Exit(exitCode: Option<int>)

  /** The fields of a launcher: `NgenExePath`, `_disposed`, whether `_ngenApp` is set,
      `ExitCode`, `_assemblies` and `_processedAssemblyCount`. */
  datatype Launcher = Launcher(
    exePath: string,
    disposed: bool,
    hasProcess: bool,
    exitCode: Option<int>,
    assemblies: Option<seq<string>>,
    processed: int)
  {
    /** `IsRunning`: a process handle is held. */
    predicate IsRunning() {
      hasProcess
    }
  }

  /** The outcome of one operation. */
  datatype Step = Step(after: Launcher, notices: seq<Notice>, effects: seq<Effect>, error: Option<Error>)

  /** The timeout `Dispose` gives the process to stop. */
  const DisposeStopTimeout: int := 1000

  /** A fresh launcher; `ngen.exe` is looked for in the runtime directory. */
  function New(runtimeDirectory: string): (l: Launcher)
    ensures !l.disposed && !l.IsRunning() && l.exitCode.None? && l.assemblies.None? && l.processed == 0
    ensures l.exePath == Combine(runtimeDirectory, "ngen.exe")
    ensures FileName(l.exePath) == "ngen.exe"
  {
    FileNameOfCombine(runtimeDirectory, "ngen.exe", "");
    assert "ngen.exe" + "" == "ngen.exe";
    assert Combine(runtimeDirectory, "ngen.exe") + "" == Combine(runtimeDirectory, "ngen.exe");
    Launcher(Combine(runtimeDirectory, "ngen.exe"), false, false, None, None, 0)
  }

  /** The launcher unchanged, with the exception `e`. */
  function Throw(l: Launcher, e: Error): Step {
    Step(l, [], [], Some(e))
  }

  /** The guards every action runs first, in order: disposed, then a process still held. */
  function ActionGuard(l: Launcher): (e: Option<Error>)
    ensures e == Some(ObjectDisposed) <==> l.disposed
    ensures e == Some(InvalidOperation) <==> !l.disposed && l.hasProcess
    ensures e.None? <==> !l.disposed && !l.hasProcess
  {
    if l.disposed then Some(ObjectDisposed)
    else if l.hasProcess then Some(InvalidOperation)
    else None
  }

  /** `InitNgenAction`'s reset: no exit code, no expected list, nothing processed. */
  function Reset(l: Launcher): Launcher {
    l.(exitCode := None, assemblies := None, processed := 0)
  }

  /** Whether the expected list is built: install and uninstall of an existing file. */
  predicate BuildsList(d: Disk, a: Action) {
    a.TracksAssemblies() && a.assembly in d.files
  }

  /** The resolver can run on the target of `a`: its local references form no cycle. */
  ghost predicate Resolvable(d: Disk, a: Action, rank: string -> nat) {
    BuildsList(d, a) ==> Ranked(d, ProbeFor(a.appBase), rank)
  }

  /** One of the five actions (`InstallAssembly`, `UninstallAssembly`, `DisplayAssembly`,
      `DisplayAllAssemblies`, `UpdateAllAssemblies`), on the disk `d`. */
  function Start(l: Launcher, d: Disk, a: Action, ghost rank: string -> nat): (s: Step)
    requires Resolvable(d, a, rank)
    ensures ActionGuard(l).Some? ==> s == Throw(l, ActionGuard(l).value)
    ensures ActionGuard(l).None? ==>
              s.after.exePath == l.exePath && !s.after.disposed && s.notices == [] &&
              s.after.exitCode.None? && s.after.processed == 0
    ensures ActionGuard(l).None? && s.error.None? ==>
              s.after.IsRunning() && s.effects == [Spawn(l.exePath, LauncherCommandLine(a))]
    ensures ActionGuard(l).None? && s.error.None? ==>
              (s.after.assemblies.Some? <==> BuildsList(d, a))
    ensures ActionGuard(l).None? && s.error.None? && s.after.assemblies.Some? ==>
              var list := s.after.assemblies.value;
              |list| >= 1 && list[0] == a.assembly && Linq.StrictlySorted(list[1..]) &&
              forall x :: x in list[1..] <==> Reachable(d, ProbeFor(a.appBase), a.assembly, x)
    ensures ActionGuard(l).None? ==>
              (s.error.Some? <==> BuildsList(d, a) && !LoadsAll(d, ProbeFor(a.appBase), a.assembly))
    ensures ActionGuard(l).None? && s.error.Some? ==>
              s.error.value.LoadFailed? &&
              (s.error.value.path == a.assembly || Reachable(d, ProbeFor(a.appBase), a.assembly, s.error.value.path))
    ensures ActionGuard(l).None? && s.error.Some? ==>
              BuildsList(d, a) && s.error.value.LoadFailed? && s.error.value.path !in d.refs &&
              !s.after.IsRunning() && s.effects == [] && s.after.assemblies == Some([a.assembly])
  {
    match ActionGuard(l)
    case Some(e) => Throw(l, e)
    case None =>
      var reset := Reset(l);
      var cmdLine := LauncherCommandLine(a);
      if BuildsList(d, a) then
        match AssemblyHelper.GetLocalReferences(d, a.assembly, a.appBase, rank)
        case Failure(path) =>
          Step(reset.(assemblies := Some([a.assembly])), [], [], Some(LoadFailed(path)))
        case Success(references) =>
          assert ([a.assembly] + references)[1..] == references;
          Step(reset.(assemblies := Some([a.assembly] + references), hasProcess := true), [], [Spawn(l.exePath, cmdLine)], None)
      else
        Step(reset.(hasProcess := true), [], [Spawn(l.exePath, cmdLine)], None)
  }

  /** Whether some element of `list` satisfies `p`, scanning from the front. */
  function Any(list: seq<string>, p: string -> bool): bool {
    if |list| == 0 then false
    else if p(list[0]) then true
    else Any(list[1..], p)
  }

  lemma {:induction false} AnyIsExists(list: seq<string>, p: string -> bool)
    ensures Any(list, p) <==> exists i :: 0 <= i < |list| && p(list[i])
    decreases |list|
  {
    if |list| > 0 {
      var tail := list[1..];
      AnyIsExists(tail, p);
      if !p(list[0]) {
        if exists i :: 0 <= i < |list| && p(list[i]) {
          var i :| 0 <= i < |list| && p(list[i]);
          assert tail[i - 1] == list[i];
        }
        if Any(tail, p) {
          var j :| 0 <= j < |tail| && p(tail[j]);
          assert list[j + 1] == tail[j];
        }
      }
    }
  }

  /** `_assemblies.Contains(name, AssemblyComparer)`: the first element the comparer finds
      equal to `name` ends the scan. */
  function ContainsName(list: seq<string>, name: string): bool {
    Any(list, x => AssemblyNameComparer.Equals(Some(x), Some(name)))
  }

  /** The scan finds `name` exactly when some element is equal to it under the comparer. */
  lemma ContainsNameIsExists(list: seq<string>, name: string)
    ensures ContainsName(list, name) <==> exists i :: 0 <= i < |list| && AssemblyNameComparer.Equals(Some(list[i]), Some(name))
  {
    AnyIsExists(list, x => AssemblyNameComparer.Equals(Some(x), Some(name)));
  }

  /** The expected assembly that `line` announces, if any: the regular expression matches and
      its name is in the expected list. */
  function Announcement(l: Launcher, line: string): (r: Option<string>)
    ensures r.Some? ==> l.assemblies.Some? && |l.assemblies.value| > 0
    ensures r.Some? ==> ProgressPattern.Match(line) == Some(r.value) && ContainsName(l.assemblies.value, r.value)
    ensures r.None? && l.assemblies.Some? && |l.assemblies.value| > 0 && ProgressPattern.Match(line).Some? ==>
              !ContainsName(l.assemblies.value, ProgressPattern.Match(line).value)
  {
    if l.assemblies.None? || |l.assemblies.value| == 0 then None
    else
      match ProgressPattern.Match(line)
      case None => None
      case Some(name) => if ContainsName(l.assemblies.value, name) then Some(name) else None
  }

  /** `UpdateProgress(line)`: counts an announced expected assembly and reports it. */
  function UpdateProgress(l: Launcher, line: string, files: set<string>): (s: Step)
    ensures s.error.None? && s.effects == []
    ensures s.after == l.(processed := s.after.processed)
    ensures Announcement(l, line).None? ==> s.after == l && s.notices == []
    ensures Announcement(l, line).Some? ==>
              s.after.processed == l.processed + 1 &&
              s.notices == [Progress(AssemblyHelper.GetShortAssemblyFileName(Announcement(l, line), files).value,
                                     l.processed + 1, |l.assemblies.value|)]
  {
    match Announcement(l, line)
    case None => Step(l, [], [], None)
    case Some(name) =>
      var processed := l.processed + 1;
      var shortName := AssemblyHelper.GetShortAssemblyFileName(Some(name), files).value;
      Step(l.(processed := processed), [Progress(shortName, processed, |l.assemblies.value|)], [], None)
  }

  /** `OnConsoleOutput`: a line the process printed, on its standard output or its standard
      error (the launcher treats both alike). Only delivered while the process is held. */
  function OnConsoleOutput(l: Launcher, line: string, isError: bool, files: set<string>): (s: Step)
    ensures s.error.None? && s.effects == []
    ensures !l.hasProcess ==> s == Step(l, [], [], None)
    ensures l.hasProcess ==>
              |s.notices| >= 1 && s.notices[0] == Output(line) &&
              s.after == UpdateProgress(l, line, files).after &&
              s.notices[1..] == UpdateProgress(l, line, files).notices
  {
    if !l.hasProcess then Step(l, [], [], None)
    else
      var progress := UpdateProgress(l, line, files);
      assert ([Output(line)] + progress.notices)[1..] == progress.notices;
      Step(progress.after, [Output(line)] + progress.notices, [], None)
  }

  /** `OnConsoleExited`: the process ended with `code`. Only delivered while the process is
      held. */
  function OnConsoleExited(l: Launcher, code: Option<int>): (s: Step)
    ensures s.error.None?
    ensures !l.hasProcess ==> s == Step(l, [], [], None)
    ensures l.hasProcess ==>
              s.after == l.(hasProcess := false, exitCode := code) &&
              s.effects == [Release] && s.notices == [Exit(code)]
  {
    if !l.hasProcess then Step(l, [], [], None)
    else Step(l.(hasProcess := false, exitCode := code), [Exit(code)], [Release], None)
  }

  /** `Cancel(timeout)`: asks the process to stop, if there is one. */
  function Cancel(l: Launcher, timeout: int): (s: Step)
    ensures s.after == l && s.notices == []
    ensures l.disposed ==> s.error == Some(ObjectDisposed) && s.effects == []
    ensures !l.disposed ==> s.error.None? && (s.effects == if l.hasProcess then [Stop(timeout)] else [])
  {
    if l.disposed then Throw(l, ObjectDisposed)
    else if l.hasProcess then Step(l, [], [Stop(timeout)], None)
    else Step(l, [], [], None)
  }

  /** `WaitForExit(timeout)`; `finished` is the library's answer for the process held, when
      there is one. */
  function WaitForExit(l: Launcher, finished: bool): (r: Result<bool, Error>)
    ensures l.disposed <==> r == Failure(ObjectDisposed)
    ensures !l.disposed && !l.hasProcess ==> r == Success(true)
    ensures !l.disposed && l.hasProcess ==> r == Success(finished)
  {
    if l.disposed then Failure(ObjectDisposed)
    else if l.hasProcess then Success(finished)
    else Success(true)
  }

  /** `Dispose()`: stops and releases the process, once. */
  function Dispose(l: Launcher): (s: Step)
    ensures s.error.None? && s.notices == [] && s.after.disposed
    ensures l.disposed ==> s.after == l && s.effects == []
    ensures !l.disposed ==> s.after == l.(disposed := true, hasProcess := false)
    ensures !l.disposed ==> s.effects == if l.hasProcess then [Stop(DisposeStopTimeout), Release] else []
  {
    if l.disposed then Step(l, [], [], None)
    else
      var cancel := Cancel(l, DisposeStopTimeout);
      var release := if l.hasProcess then [Release] else [];
      Step(l.(disposed := true, hasProcess := false), [], cancel.effects + release, None)
  }
}
