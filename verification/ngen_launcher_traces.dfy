/** Runs of the launcher: what subscribers see while a started process reports its output lines
    and its exit, and how the operations guard one another across a run. */
module NgenLauncherTraces {
  import opened Wrappers
  import opened ConsoleApp
  import opened CommandLine
  import opened DependencyGraph
  import opened NgenLauncher
  import AssemblyNameComparer
  import ProgressPattern

  /** How a launcher reacts to one reported event. */
  type Handler = (Launcher, Event) -> Step

  /** The launcher's handler for one reported event; `files` are the files that exist. */
  function Deliver(l: Launcher, e: Event, files: set<string>): Step {
    match e
    case Line(text, isError) => OnConsoleOutput(l, text, isError, files)
    case Exited(code) => OnConsoleExited(l, code)
  }

  /** `Deliver` as a handler. */
  function Handlers(files: set<string>): Handler {
    (l, e) => Deliver(l, e, files)
  }

  /** The events delivered in order through `h` while the process is held; the notices and
      requests of each step, concatenated. */
  function Feed(h: Handler, l: Launcher, events: seq<Event>): (s: Step)
    ensures !l.hasProcess ==> s == Step(l, [], [], None)
    decreases |events|
  {
    if |events| == 0 || !l.hasProcess then Step(l, [], [], None)
    else
      var first := h(l, events[0]);
      var rest := Feed(h, first.after, events[1..]);
      Step(rest.after, first.notices + rest.notices, first.effects + rest.effects, None)
  }

  /** One step of `Feed`. */
  lemma FeedStep(h: Handler, l: Launcher, events: seq<Event>)
    requires |events| > 0 && l.hasProcess
    ensures var first := h(l, events[0]);
            var rest := Feed(h, first.after, events[1..]);
            Feed(h, l, events) == Step(rest.after, first.notices + rest.notices, first.effects + rest.effects, None)
  {
  }

  /** The counters of the `Progress` notices, in order. */
  function Currents(ns: seq<Notice>): (r: seq<int>)
    ensures |r| <= |ns|
  {
    if |ns| == 0 then [] else CurrentOf(ns[0]) + Currents(ns[1..])
  }

  /** The counter of a `Progress` notice. */
  function CurrentOf(n: Notice): (r: seq<int>)
    ensures |r| <= 1
  {
    if n.Progress? then [n.current] else []
  }

  /** The lines of the `Output` notices, in order. */
  function Outputs(ns: seq<Notice>): (r: seq<string>)
    ensures |r| <= |ns|
  {
    if |ns| == 0 then [] else OutputOf(ns[0]) + Outputs(ns[1..])
  }

  /** The line of an `Output` notice. */
  function OutputOf(n: Notice): (r: seq<string>)
    ensures |r| <= 1
  {
    if n.Output? then [n.line] else []
  }

  /** Every event is a reported line. */
  predicate AllLines(events: seq<Event>) {
    forall i :: 0 <= i < |events| ==> events[i].Line?
  }

  /** The text of every reported line. */
  function Texts(events: seq<Event>): (r: seq<string>)
    requires AllLines(events)
    ensures |r| == |events|
    ensures forall i :: 0 <= i < |events| ==> r[i] == events[i].text
  {
    if |events| == 0 then [] else [events[0].text] + Texts(events[1..])
  }

  lemma {:induction false} CurrentsAppend(a: seq<Notice>, b: seq<Notice>)
    ensures Currents(a + b) == Currents(a) + Currents(b)
    decreases |a|
  {
    if |a| == 0 {
      assert a + b == b;
    } else {
      var ab := a + b;
      assert ab[0] == a[0] && ab[1..] == a[1..] + b;
      CurrentsAppend(a[1..], b);
      var head := CurrentOf(a[0]);
      assert Currents(ab) == head + (Currents(a[1..]) + Currents(b));
      assert Currents(a) == head + Currents(a[1..]);
    }
  }

  lemma {:induction false} OutputsAppend(a: seq<Notice>, b: seq<Notice>)
    ensures Outputs(a + b) == Outputs(a) + Outputs(b)
    decreases |a|
  {
    if |a| == 0 {
      assert a + b == b;
    } else {
      var ab := a + b;
      assert ab[0] == a[0] && ab[1..] == a[1..] + b;
      OutputsAppend(a[1..], b);
      var head := OutputOf(a[0]);
      assert Outputs(ab) == head + (Outputs(a[1..]) + Outputs(b));
      assert Outputs(a) == head + Outputs(a[1..]);
    }
  }

  /** Every `Progress` notice of a run reports the size of the expected list as its total. */
  ghost predicate TotalsAre(ns: seq<Notice>, total: int) {
    forall i :: 0 <= i < |ns| && ns[i].Progress? ==> ns[i].total == total
  }

  lemma TotalsAppend(a: seq<Notice>, b: seq<Notice>, total: int)
    requires TotalsAre(a, total) && TotalsAre(b, total)
    ensures TotalsAre(a + b, total)
  {
    forall i | 0 <= i < |a + b| && (a + b)[i].Progress?
      ensures (a + b)[i].total == total
    {
      if i >= |a| {
        assert (a + b)[i] == b[i - |a|];
      }
    }
  }

  // What a run is made of: the contracts of a single step.

  /** The step `s` from `l` keeps the list and adds at most one counter, the next one, with the
      list's size as its total. */
  ghost predicate StepCounts(l: Launcher, s: Step) {
    s.after.assemblies == l.assemblies &&
    (s.after.processed == l.processed || s.after.processed == l.processed + 1) &&
    Currents(s.notices) == (if s.after.processed == l.processed then [] else [l.processed + 1]) &&
    (l.assemblies.Some? ==> TotalsAre(s.notices, |l.assemblies.value|)) &&
    (l.assemblies.None? ==> s.after.processed == l.processed)
  }

  /** Every step of `h` from a launcher holding its process counts as above. */
  ghost predicate Counting(h: Handler) {
    forall l: Launcher, e: Event :: l.hasProcess ==> StepCounts(l, h(l, e))
  }

  /** Every reported line keeps the process, asks nothing of the library and is forwarded. */
  ghost predicate Forwarding(h: Handler) {
    forall l: Launcher, e: Event :: l.hasProcess && e.Line? ==>
      h(l, e).after.hasProcess && h(l, e).effects == [] && Outputs(h(l, e).notices) == [e.text]
  }

  /** One reported line: an `Output`, then at most one `Progress` that counts one more of the
      expected list. */
  lemma LineStep(l: Launcher, text: string, isError: bool, files: set<string>)
    requires l.hasProcess
    ensures var s := OnConsoleOutput(l, text, isError, files);
            s.after.hasProcess && s.after.assemblies == l.assemblies && s.effects == [] &&
            |s.notices| >= 1 && s.notices[0] == Output(text) &&
            ((s.after.processed == l.processed && s.notices == [Output(text)]) ||
             (l.assemblies.Some? && s.after.processed == l.processed + 1 && |s.notices| == 2 &&
              s.notices[1].Progress? && s.notices[1].current == l.processed + 1 &&
              s.notices[1].total == |l.assemblies.value|))
  {
    var s := OnConsoleOutput(l, text, isError, files);
    var progress := UpdateProgress(l, text, files);
    assert s.notices == [Output(text)] + progress.notices;
  }

  /** Each of the launcher's steps counts. */
  lemma DeliverStep(l: Launcher, e: Event, files: set<string>)
    requires l.hasProcess
    ensures StepCounts(l, Deliver(l, e, files))
  {
    var s := Deliver(l, e, files);
    match e
    case Exited(code) =>
      assert Currents(s.notices) == [] + Currents(s.notices[1..]);
    case Line(text, isError) =>
      LineStep(l, text, isError, files);
      if s.after.processed == l.processed {
        assert Currents(s.notices) == [] + Currents(s.notices[1..]);
      } else {
        assert Currents(s.notices[1..]) == [l.processed + 1] + Currents(s.notices[2..]);
        assert Currents(s.notices) == [] + Currents(s.notices[1..]);
      }
  }

  lemma LauncherCounts(files: set<string>)
    ensures Counting(Handlers(files))
  {
    forall l: Launcher, e: Event | l.hasProcess
      ensures StepCounts(l, Handlers(files)(l, e))
    {
      DeliverStep(l, e, files);
    }
  }

  lemma LauncherForwards(files: set<string>)
    ensures Forwarding(Handlers(files))
  {
    forall l: Launcher, e: Event | l.hasProcess && e.Line?
      ensures var s := Handlers(files)(l, e);
              s.after.hasProcess && s.effects == [] && Outputs(s.notices) == [e.text]
    {
      var s := Deliver(l, e, files);
      LineStep(l, e.text, e.isError, files);
      assert Outputs(s.notices) == [e.text] by {
        if |s.notices| == 2 {
          assert Outputs(s.notices[1..]) == [] + Outputs(s.notices[2..]);
        }
      }
    }
  }

  // Runs of any counting or forwarding handler.

  /** The counters of a run count up by one from where the launcher stood, and every notice
      reports the same total. */
  lemma {:induction false} RunCountsUp(h: Handler, l: Launcher, events: seq<Event>)
    requires Counting(h)
    ensures var s := Feed(h, l, events);
            s.after.assemblies == l.assemblies &&
            |Currents(s.notices)| == s.after.processed - l.processed &&
            forall i :: 0 <= i < |Currents(s.notices)| ==> Currents(s.notices)[i] == l.processed + 1 + i
    ensures l.assemblies.Some? ==> TotalsAre(Feed(h, l, events).notices, |l.assemblies.value|)
    ensures l.assemblies.None? ==> Currents(Feed(h, l, events).notices) == []
    decreases |events|
  {
    if |events| > 0 && l.hasProcess {
      var first := h(l, events[0]);
      var rest := Feed(h, first.after, events[1..]);
      FeedStep(h, l, events);
      assert StepCounts(l, first);
      RunCountsUp(h, first.after, events[1..]);
      CurrentsAppend(first.notices, rest.notices);
      if l.assemblies.Some? {
        TotalsAppend(first.notices, rest.notices, |l.assemblies.value|);
      }
    }
  }

  /** While the process runs, every reported line is forwarded as an `Output`, in order. */
  lemma {:induction false} RunForwards(h: Handler, l: Launcher, events: seq<Event>)
    requires Forwarding(h) && l.hasProcess && AllLines(events)
    ensures Outputs(Feed(h, l, events).notices) == Texts(events)
    ensures Feed(h, l, events).effects == [] && Feed(h, l, events).after.hasProcess
    decreases |events|
  {
    if |events| > 0 {
      var first := h(l, events[0]);
      var rest := Feed(h, first.after, events[1..]);
      FeedStep(h, l, events);
      assert AllLines(events[1..]) by {
        forall i | 0 <= i < |events[1..]| ensures events[1..][i].Line? {
          assert events[1..][i] == events[i + 1];
        }
      }
      RunForwards(h, first.after, events[1..]);
      OutputsAppend(first.notices, rest.notices);
      assert Texts(events) == [events[0].text] + Texts(events[1..]);
    }
  }

  /** Two steps that both count, from a launcher expecting one assembly, report 2 of 1. */
  lemma CountsTwice(h: Handler, l: Launcher, e: Event)
    requires Counting(h) && l.hasProcess && l.processed == 0
    requires l.assemblies.Some? && |l.assemblies.value| == 1
    requires h(l, e).after == l.(processed := 1)
    requires h(l.(processed := 1), e).after == l.(processed := 2)
    ensures var ns := Feed(h, l, [e, e]).notices;
            Currents(ns) == [1, 2] && TotalsAre(ns, 1)
  {
    var once := l.(processed := 1);
    FeedStep(h, l, [e, e]);
    assert [e, e][1..] == [e];
    FeedStep(h, once, [e]);
    assert [e][1..] == [];
    assert Feed(h, l, [e, e]).after == l.(processed := 2);
    RunCountsUp(h, l, [e, e]);
  }

  // The launcher's runs.

  /** The counters of a run count up by one from where the launcher stood, one per announced
      expected assembly, and every notice reports the same total. */
  lemma ProgressCountsUp(l: Launcher, events: seq<Event>, files: set<string>)
    ensures var s := Feed(Handlers(files), l, events);
            |Currents(s.notices)| == s.after.processed - l.processed &&
            forall i :: 0 <= i < |Currents(s.notices)| ==> Currents(s.notices)[i] == l.processed + 1 + i
    ensures l.assemblies.Some? ==> TotalsAre(Feed(Handlers(files), l, events).notices, |l.assemblies.value|)
    ensures l.assemblies.None? ==> Currents(Feed(Handlers(files), l, events).notices) == []
  {
    LauncherCounts(files);
    RunCountsUp(Handlers(files), l, events);
  }

  /** A run started by an action that builds no list (display, display-all, update, or a
      target that does not exist) never reports progress. */
  lemma NoListNoProgress(l: Launcher, d: Disk, a: Action, rank: string -> nat, events: seq<Event>, files: set<string>)
    requires Resolvable(d, a, rank) && !BuildsList(d, a)
    requires Start(l, d, a, rank).error.None?
    ensures Currents(Feed(Handlers(files), Start(l, d, a, rank).after, events).notices) == []
  {
    ProgressCountsUp(Start(l, d, a, rank).after, events, files);
  }

  /** Read under the assumption that each expected assembly is announced at most once in all:
      a run from a fresh count whose number of announcements stays within the list reports no
      counter above the total. */
  lemma CurrentWithinTotal(l: Launcher, events: seq<Event>, files: set<string>)
    requires l.processed == 0 && l.assemblies.Some?
    requires Feed(Handlers(files), l, events).after.processed <= |l.assemblies.value|
    ensures forall c :: c in Currents(Feed(Handlers(files), l, events).notices) ==> 1 <= c <= |l.assemblies.value|
  {
    ProgressCountsUp(l, events, files);
  }

  /** A running launcher that expects the single assembly "A". */
  function ExpectingA(): (l: Launcher)
    ensures l.hasProcess && l.processed == 0 && l.assemblies == Some(["A"])
  {
    Launcher("ngen.exe", false, true, None, Some(["A"]), 0)
  }

  lemma AnnouncesA()
    ensures ProgressPattern.Match("assembly A,") == Some("A")
  {
    var s := "assembly A,";
    assert ProgressPattern.OccursAt(s, 0, ProgressPattern.Keyword);
    assert s[9] == 'A' && s[10] == ',';
    assert ProgressPattern.LazyEnd(s, 10) == Some(10);
    assert ProgressPattern.LazyEnd(s, 9) == Some(10);
    assert s[9..10] == "A";
  }

  /** A line announcing an expected assembly counts it and keeps the process and the list. */
  lemma AnnouncingLineCounts(l: Launcher, text: string, files: set<string>)
    requires l.hasProcess && Announcement(l, text).Some?
    ensures Handlers(files)(l, Line(text, false)).after == l.(processed := l.processed + 1)
  {
  }

  /** A line that announces an expected assembly, reported twice to a launcher that expects
      one assembly, makes the second notice report 2 of 1. */
  lemma RepeatedAnnouncementOverruns(l: Launcher, text: string, files: set<string>)
    requires l.hasProcess && l.processed == 0 && Announcement(l, text).Some?
    requires |l.assemblies.value| == 1
    ensures var ns := Feed(Handlers(files), l, [Line(text, false), Line(text, false)]).notices;
            Currents(ns) == [1, 2] && TotalsAre(ns, 1)
  {
    AnnouncingLineCounts(l, text, files);
    var once := l.(processed := 1);
    assert Announcement(once, text) == Announcement(l, text);
    AnnouncingLineCounts(once, text, files);
    LauncherCounts(files);
    CountsTwice(Handlers(files), l, Line(text, false));
  }

  lemma ExpectingAAnnouncesA()
    ensures Announcement(ExpectingA(), "assembly A,") == Some("A")
  {
    AnnouncesA();
    AssemblyNameComparer.EqualsIsEquivalence(Some("A"), Some("A"), Some("A"));
    ContainsNameIsExists(["A"], "A");
    assert ContainsName(["A"], "A");
  }

  /** The total is not an upper bound of the counter: ngen announcing the one expected
      assembly twice makes the second notice report 2 of 1. */
  lemma CurrentCanExceedTotal(files: set<string>)
    ensures var ns := Feed(Handlers(files), ExpectingA(), [Line("assembly A,", false), Line("assembly A,", false)]).notices;
            Currents(ns) == [1, 2] && TotalsAre(ns, 1)
  {
    ExpectingAAnnouncesA();
    RepeatedAnnouncementOverruns(ExpectingA(), "assembly A,", files);
  }

  /** While the process runs, every reported line is forwarded as an `Output`, in order. */
  lemma EveryLineIsForwarded(l: Launcher, events: seq<Event>, files: set<string>)
    requires l.hasProcess && AllLines(events)
    ensures Outputs(Feed(Handlers(files), l, events).notices) == Texts(events)
    ensures Feed(Handlers(files), l, events).effects == [] && Feed(Handlers(files), l, events).after.hasProcess
  {
    LauncherForwards(files);
    RunForwards(Handlers(files), l, events);
  }

  /** The exit ends a run: it releases the process, records the code and raises `Exit` last;
      nothing reported afterwards reaches subscribers. */
  lemma ExitEndsTheRun(l: Launcher, code: Option<int>, later: seq<Event>, files: set<string>)
    requires l.hasProcess
    ensures var s := Feed(Handlers(files), l, [Exited(code)] + later);
            s.notices == [Exit(code)] && s.effects == [Release] &&
            s.after == l.(hasProcess := false, exitCode := code)
  {
    var h := Handlers(files);
    var events := [Exited(code)] + later;
    FeedStep(h, l, events);
    assert events[0] == Exited(code) && events[1..] == later;
    var first := h(l, Exited(code));
    assert first == OnConsoleExited(l, code);
    assert Feed(h, first.after, later) == Step(first.after, [], [], None);
    assert [Exit(code)] + [] == [Exit(code)];
    assert [Release] + [] == [Release];
  }

  /** A launcher whose process has exited accepts the next action. */
  lemma ExitAllowsNextAction(l: Launcher, code: Option<int>)
    requires !l.disposed && l.hasProcess
    ensures ActionGuard(OnConsoleExited(l, code).after).None?
    ensures ActionGuard(l) == Some(InvalidOperation)
  {
  }

  /** The launcher's own invariant: a disposed launcher holds no process, the counter is never
      negative, and an expected list is never empty. */
  ghost predicate Valid(l: Launcher) {
    (l.disposed ==> !l.hasProcess) && l.processed >= 0 && (l.assemblies.Some? ==> |l.assemblies.value| >= 1)
  }

  lemma NewIsValid(runtimeDirectory: string)
    ensures Valid(New(runtimeDirectory))
  {
  }

  /** Every step of `h` keeps the invariant. */
  ghost predicate KeepsValid(h: Handler) {
    forall l: Launcher, e: Event :: Valid(l) ==> Valid(h(l, e).after)
  }

  lemma {:induction false} RunKeepsValid(h: Handler, l: Launcher, events: seq<Event>)
    requires KeepsValid(h) && Valid(l)
    ensures Valid(Feed(h, l, events).after)
    decreases |events|
  {
    if |events| > 0 && l.hasProcess {
      FeedStep(h, l, events);
      RunKeepsValid(h, h(l, events[0]).after, events[1..]);
    }
  }

  lemma LauncherKeepsValid(files: set<string>)
    ensures KeepsValid(Handlers(files))
  {
    forall l: Launcher, e: Event | Valid(l)
      ensures Valid(Handlers(files)(l, e).after)
    {
      if l.hasProcess && e.Line? {
        LineStep(l, e.text, e.isError, files);
      }
    }
  }

  /** Every operation and every callback keeps the invariant. */
  lemma ValidIsKept(l: Launcher, d: Disk, a: Action, rank: string -> nat, events: seq<Event>, files: set<string>, timeout: int)
    requires Valid(l)
    ensures Resolvable(d, a, rank) ==> Valid(Start(l, d, a, rank).after)
    ensures Valid(Feed(Handlers(files), l, events).after)
    ensures Valid(Cancel(l, timeout).after)
    ensures Valid(Dispose(l).after)
  {
    LauncherKeepsValid(files);
    RunKeepsValid(Handlers(files), l, events);
  }

  /** After `Dispose` every operation throws `ObjectDisposed` and changes nothing; disposing
      again does nothing. */
  lemma DisposedRejectsEverything(l: Launcher, d: Disk, a: Action, rank: string -> nat, timeout: int, finished: bool)
    requires Resolvable(d, a, rank)
    ensures var gone := Dispose(l).after;
            Start(gone, d, a, rank) == Step(gone, [], [], Some(ObjectDisposed)) &&
            Cancel(gone, timeout) == Step(gone, [], [], Some(ObjectDisposed)) &&
            WaitForExit(gone, finished) == Failure(ObjectDisposed) &&
            Dispose(gone) == Step(gone, [], [], None)
  {
  }

  /** A rejected action leaves the launcher as it was and asks nothing of the process library,
      so a failed call cannot lose the exit code or the progress of the current run. */
  lemma RejectedActionChangesNothing(l: Launcher, d: Disk, a: Action, rank: string -> nat)
    requires Resolvable(d, a, rank)
    requires l.disposed || l.hasProcess
    ensures Start(l, d, a, rank).after == l && Start(l, d, a, rank).effects == []
    ensures Start(l, d, a, rank).error == Some(if l.disposed then ObjectDisposed else InvalidOperation)
  {
  }
}
