/** `NgenWrapper`: the simpler front end. It runs one ngen action at a time with a fixed command
    line per action, forwards every output line, keeps the lines printed on standard error as
    `Errors`, and reports the exit. */
module NgenWrapper {
  import opened Wrappers
  import opened Paths
  import opened CommandLine
  import opened ConsoleApp

  /** Events raised to subscribers: `ConsoleOutput` with the line as reported, and `Exited`. */
  datatype Notice =
    | ConsoleOutput(line: string, isError: bool)
    | Exit

  /** The fields of a wrapper: `NgenExePath`, `_disposed`, whether `_ngen` is set, `ExitCode`
      and `_errors`. */
  datatype Wrapper = Wrapper(
    exePath: string,
    disposed: bool,
    hasProcess: bool,
    exitCode: Option<int>,
    errors: seq<string>)
  {
    /** `IsRunning`: a process is held and the library reports it running or exiting. */
    predicate IsRunning(processActive: bool) {
      hasProcess && processActive
    }
  }

  /** The outcome of one operation. */
  datatype Step = Step(after: Wrapper, notices: seq<Notice>, effects: seq<Effect>, error: Option<Error>)

  /** The timeout `Dispose` gives the process to stop. */
  const DisposeStopTimeout: int := 2000

  /** A fresh wrapper; `ngen.exe` is looked for in the runtime directory. */
  function New(runtimeDirectory: string): (w: Wrapper)
    ensures !w.disposed && !w.hasProcess && w.exitCode.None? && w.errors == []
    ensures w.exePath == Combine(runtimeDirectory, "ngen.exe")
    ensures FileName(w.exePath) == "ngen.exe"
  {
    FileNameOfCombine(runtimeDirectory, "ngen.exe", "");
    assert "ngen.exe" + "" == "ngen.exe";
    assert Combine(runtimeDirectory, "ngen.exe") + "" == Combine(runtimeDirectory, "ngen.exe");
    Wrapper(Combine(runtimeDirectory, "ngen.exe"), false, false, None, [])
  }

  /** The command line the wrapper gives each action: the scenarios, the configuration file
      and the application base it is given are not passed on. */
  function CommandLineOf(a: Action): string {
    match a
    case Install(x, _, _, _) => "install " + Quoted(x) + " /nologo"
    case Uninstall(x, _, _, _) => "uninstall " + Quoted(x) + " /nologo /verbose"
    case Display(x) => "display " + Quoted(x) + " /nologo"
    case DisplayAll => "display /nologo"
    case UpdateAll => "update /nologo"
  }

  /** `a` with its options at their defaults: no configuration file, no application base, the
      default scenario. */
  function Defaulted(a: Action): (r: Action)
    ensures r.TracksAssemblies() == a.TracksAssemblies()
  {
    match a
    case Install(x, _, _, _) => Install(x, None, None, Default)
    case Uninstall(x, _, _, _) => Uninstall(x, None, None, Default)
    case _ => a
  }

  /** The wrapper's command line is the launcher's for the same action with every option left
      at its default. */
  lemma CommandLineIsDefaultedLauncherLine(a: Action)
    ensures CommandLineOf(a) == LauncherCommandLine(Defaulted(a))
  {
    assert Default & KnownScenarios == 0;
    match a
    case Install(x, _, _, _) =>
      assert "install " + Quoted(x) + " /nologo" + "" == "install " + Quoted(x) + " /nologo";
    case Uninstall(x, _, _, _) =>
      assert "uninstall " + Quoted(x) + " /nologo /verbose" + "" == "uninstall " + Quoted(x) + " /nologo /verbose";
    case _ =>
  }

  /** The guards every action runs first, in order: disposed, then a process still held. */
  function ActionGuard(w: Wrapper): (e: Option<Error>)
    ensures e == Some(ObjectDisposed) <==> w.disposed
    ensures e == Some(InvalidOperation) <==> !w.disposed && w.hasProcess
    ensures e.None? <==> !w.disposed && !w.hasProcess
  {
    if w.disposed then Some(ObjectDisposed)
    else if w.hasProcess then Some(InvalidOperation)
    else None
  }

  /** One of the five actions. */
  function Start(w: Wrapper, a: Action): (s: Step)
    ensures ActionGuard(w).Some? ==> s == Step(w, [], [], ActionGuard(w))
    ensures ActionGuard(w).None? ==>
              s.error.None? && s.notices == [] &&
              s.after == w.(hasProcess := true, exitCode := None, errors := []) &&
              s.effects == [Spawn(w.exePath, LauncherCommandLine(Defaulted(a)))]
  {
    CommandLineIsDefaultedLauncherLine(a);
    match ActionGuard(w)
    case Some(e) => Step(w, [], [], Some(e))
    case None =>
      Step(w.(hasProcess := true, exitCode := None, errors := []), [], [Spawn(w.exePath, CommandLineOf(a))], None)
  }

  /** `OnConsoleOutput`: standard-error lines are kept, and every line is forwarded. Only
      delivered while the process is held. */
  function OnConsoleOutput(w: Wrapper, line: string, isError: bool): (s: Step)
    ensures s.error.None? && s.effects == []
    ensures !w.hasProcess ==> s == Step(w, [], [], None)
    ensures w.hasProcess ==>
              s.notices == [ConsoleOutput(line, isError)] &&
              s.after == w.(errors := w.errors + if isError then [line] else [])
  {
    if !w.hasProcess then Step(w, [], [], None)
    else
      var errors := if isError then w.errors + [line] else w.errors;
      assert w.errors + [] == w.errors;
      Step(w.(errors := errors), [ConsoleOutput(line, isError)], [], None)
  }

  /** `OnConsoleExited`: records the exit code, releases the process, then raises `Exited`.
      Only delivered while the process is held. */
  function OnConsoleExited(w: Wrapper, code: Option<int>): (s: Step)
    ensures s.error.None?
    ensures !w.hasProcess ==> s == Step(w, [], [], None)
    ensures w.hasProcess ==>
              s.after == w.(hasProcess := false, exitCode := code) &&
              s.effects == [Release] && s.notices == [Exit]
  {
    if !w.hasProcess then Step(w, [], [], None)
    else Step(w.(hasProcess := false, exitCode := code), [Exit], [Release], None)
  }

  /** `Cancel(timeout)`: asks the process to stop, if there is one. */
  function Cancel(w: Wrapper, timeout: int): (s: Step)
    ensures s.after == w && s.notices == []
    ensures w.disposed ==> s.error == Some(ObjectDisposed) && s.effects == []
    ensures !w.disposed ==> s.error.None? && (s.effects == if w.hasProcess then [Stop(timeout)] else [])
  {
    if w.disposed then Step(w, [], [], Some(ObjectDisposed))
    else if w.hasProcess then Step(w, [], [Stop(timeout)], None)
    else Step(w, [], [], None)
  }

  /** `WaitForExit(timeout)`; `finished` is the library's answer for the process held, when
      there is one. */
  function WaitForExit(w: Wrapper, finished: bool): (r: Result<bool, Error>)
    ensures w.disposed <==> r == Failure(ObjectDisposed)
    ensures !w.disposed && !w.hasProcess ==> r == Success(true)
    ensures !w.disposed && w.hasProcess ==> r == Success(finished)
  {
    if w.disposed then Failure(ObjectDisposed)
    else if w.hasProcess then Success(finished)
    else Success(true)
  }

  /** `Dispose()`: stops and releases the process, once. */
  function Dispose(w: Wrapper): (s: Step)
    ensures s.error.None? && s.notices == [] && s.after.disposed
    ensures w.disposed ==> s.after == w && s.effects == []
    ensures !w.disposed ==> s.after == w.(disposed := true, hasProcess := false)
    ensures !w.disposed ==> s.effects == if w.hasProcess then [Stop(DisposeStopTimeout), Release] else []
  {
    if w.disposed then Step(w, [], [], None)
    else
      var cancel := Cancel(w, DisposeStopTimeout);
      var release := if w.hasProcess then [Release] else [];
      Step(w.(disposed := true, hasProcess := false), [], cancel.effects + release, None)
  }

  /** The wrapper's handler for one reported event. */
  function Deliver(w: Wrapper, e: Event): Step {
    match e
    case Line(text, isError) => OnConsoleOutput(w, text, isError)
    case Exited(code) => OnConsoleExited(w, code)
  }

  /** The events delivered in order; the notices and requests of each step, concatenated. */
  function Feed(w: Wrapper, events: seq<Event>): (s: Step)
    ensures s.error.None?
    ensures s.after.exePath == w.exePath && s.after.disposed == w.disposed
    ensures !w.hasProcess ==> s == Step(w, [], [], None)
    decreases |events|
  {
    if |events| == 0 || !w.hasProcess then Step(w, [], [], None)
    else
      var first := Deliver(w, events[0]);
      var rest := Feed(first.after, events[1..]);
      Step(rest.after, first.notices + rest.notices, first.effects + rest.effects, None)
  }

  /** Every event is a reported line. */
  predicate AllLines(events: seq<Event>) {
    forall i :: 0 <= i < |events| ==> events[i].Line?
  }

  /** The texts of the lines reported on standard error, in order. */
  function ErrorLines(events: seq<Event>): (r: seq<string>)
    requires AllLines(events)
    ensures |r| <= |events|
  {
    if |events| == 0 then []
    else (if events[0].isError then [events[0].text] else []) + ErrorLines(events[1..])
  }

  /** Each reported line as it is forwarded. */
  function Forwarded(events: seq<Event>): (r: seq<Notice>)
    requires AllLines(events)
    ensures |r| == |events|
    ensures forall i :: 0 <= i < |events| ==> r[i] == ConsoleOutput(events[i].text, events[i].isError)
  {
    if |events| == 0 then [] else [ConsoleOutput(events[0].text, events[0].isError)] + Forwarded(events[1..])
  }

  /** While the process runs, `Errors` grows by exactly the standard-error lines in order, and
      every line is forwarded as reported. */
  lemma {:induction false} ErrorsAreStandardErrorLines(w: Wrapper, events: seq<Event>)
    requires w.hasProcess && AllLines(events)
    ensures var s := Feed(w, events);
            s.after == w.(errors := w.errors + ErrorLines(events)) &&
            s.notices == Forwarded(events) && s.effects == []
    decreases |events|
  {
    if |events| == 0 {
      assert w.errors + [] == w.errors;
    } else {
      var tail := events[1..];
      LinesSplit(events);
      var first := OnConsoleOutput(w, events[0].text, events[0].isError);
      var head := if events[0].isError then [events[0].text] else [];
      FeedFirst(w, events);
      assert Deliver(w, events[0]) == first;
      var rest := Feed(first.after, tail);
      ErrorsAreStandardErrorLines(first.after, tail);
      AppendAssociates(w.errors, head, ErrorLines(tail));
    }
  }

  lemma AppendAssociates<T>(a: seq<T>, b: seq<T>, c: seq<T>)
    ensures a + b + c == a + (b + c)
  {
  }

  /** One delivery, then the rest of the events. */
  lemma FeedFirst(w: Wrapper, events: seq<Event>)
    requires w.hasProcess && |events| > 0
    ensures var first := Deliver(w, events[0]);
            var rest := Feed(first.after, events[1..]);
            Feed(w, events) == Step(rest.after, first.notices + rest.notices, first.effects + rest.effects, None)
  {
  }

  /** The first line's contribution, then the rest of the lines'. */
  lemma LinesSplit(events: seq<Event>)
    requires AllLines(events) && |events| > 0
    ensures AllLines(events[1..])
    ensures ErrorLines(events) == (if events[0].isError then [events[0].text] else []) + ErrorLines(events[1..])
    ensures Forwarded(events) == [ConsoleOutput(events[0].text, events[0].isError)] + Forwarded(events[1..])
  {
    var tail := events[1..];
    forall i | 0 <= i < |tail| ensures tail[i].Line? {
      assert tail[i] == events[i + 1];
    }
  }

  /** After a started action, `Errors` is exactly the standard-error lines of this run: those
      of an earlier run are gone. */
  lemma ErrorsBelongToTheCurrentRun(w: Wrapper, a: Action, events: seq<Event>)
    requires ActionGuard(w).None? && AllLines(events)
    ensures Feed(Start(w, a).after, events).after.errors == ErrorLines(events)
  {
    var started := Start(w, a).after;
    assert started.hasProcess && started.errors == [];
    ErrorsAreStandardErrorLines(started, events);
    assert [] + ErrorLines(events) == ErrorLines(events);
  }

  /** The exit ends a run: it releases the process, records the code and raises `Exited`;
      nothing reported afterwards reaches subscribers or `Errors`. */
  lemma ExitEndsTheRun(w: Wrapper, code: Option<int>, later: seq<Event>)
    requires w.hasProcess
    ensures var s := Feed(w, [Exited(code)] + later);
            s.notices == [Exit] && s.effects == [Release] &&
            s.after == w.(hasProcess := false, exitCode := code)
  {
    assert ([Exited(code)] + later)[1..] == later;
    var first := OnConsoleExited(w, code);
    assert Feed(first.after, later) == Step(first.after, [], [], None);
    assert [Exit] + [] == [Exit];
    assert [Release] + [] == [Release];
  }

  /** The wrapper's own invariant: a disposed wrapper holds no process. */
  ghost predicate Valid(w: Wrapper) {
    w.disposed ==> !w.hasProcess
  }

  /** Every operation and every callback keeps the invariant. */
  lemma {:induction false} ValidIsKept(w: Wrapper, a: Action, events: seq<Event>, timeout: int)
    requires Valid(w)
    ensures Valid(Start(w, a).after)
    ensures Valid(Feed(w, events).after)
    ensures Valid(Cancel(w, timeout).after)
    ensures Valid(Dispose(w).after)
    decreases |events|
  {
    if |events| > 0 && w.hasProcess {
      var first := Deliver(w, events[0]);
      assert Valid(first.after);
      ValidIsKept(first.after, a, events[1..], timeout);
    }
  }

  /** After `Dispose` every operation throws `ObjectDisposed` and changes nothing; disposing
      again does nothing. */
  lemma DisposedRejectsEverything(w: Wrapper, a: Action, timeout: int, finished: bool)
    ensures var gone := Dispose(w).after;
            Start(gone, a) == Step(gone, [], [], Some(ObjectDisposed)) &&
            Cancel(gone, timeout) == Step(gone, [], [], Some(ObjectDisposed)) &&
            WaitForExit(gone, finished) == Failure(ObjectDisposed) &&
            Dispose(gone) == Step(gone, [], [], None)
  {
  }

  /** A rejected action leaves the wrapper as it was: neither the exit code nor the errors of
      the current run are cleared. */
  lemma RejectedActionChangesNothing(w: Wrapper, a: Action)
    requires w.disposed || w.hasProcess
    ensures Start(w, a).after == w && Start(w, a).effects == []
    ensures Start(w, a).error == Some(if w.disposed then ObjectDisposed else InvalidOperation)
  {
  }
}
