# NgenWrapper, modelled in Dafny

NgenWrapper is a small .NET library that drives `ngen.exe`, the Native Image Generator. It has
two front ends:

- `NgenLauncher` runs install, uninstall, display, display-all and update actions. It builds
  the command line from the action's options. For install and uninstall it works out the target's
  local dependencies. While ngen runs it forwards every output line, and it reports progress
  whenever ngen announces one of the expected assemblies. It reports the exit code at the end.
- `NgenWrapper` is the simpler front end. It uses a fixed command line per action, forwards
  every line, and keeps the lines printed on standard error as `Errors`.

The model covers the following parts:

- **The dependency resolver** (`AssemblyHelper`, `AssemblyAnalyzer`). It walks the references of
  an assembly. Each reference is looked for as `<folder>\<name>.dll`. Every candidate that
  exists is yielded, and the walk recurses into it. The result then goes through `Distinct`
  and `OrderBy`. The assembly metadata and `File.Exists` are modelled as data, the `Disk`.
- **The name normaliser** `GetShortAssemblyFileName` and the comparer `AssemblyNameComparer`.
- **The progress pattern** `(assembly )(?<assembly>.*?)(,| \(CLR)`. It is modelled the way the
  regular-expression engine runs it, and checked against a plain-text reading.
- **The command lines** of the five actions, with the `/ExeConfig`, `/AppBase`, `/Debug`,
  `/Profile` and `/NoDependencies` switches. A reader recovers the action from a command line.
- **The two front ends as state machines.** Each operation and each process callback is a
  function from a state to a `Step`. A `Step` holds:
  - the state after the call;
  - the events raised to subscribers;
  - the requests made to the console-process library (start, stop, release);
  - the exception thrown, if any.

  What the process reports (a line, its exit) is the input of a callback. `Feed` delivers a
  sequence of such reports, which is how runs are studied.

| file | module | models |
|---|---|---|
| wrappers.dfy | Wrappers | `Option`, `Result` |
| ordinal_strings.dfy | OrdinalStrings | ordinal ignore-case equality, suffix test, ordinal order |
| paths.dfy | Paths | `GetFileName`, `GetFileNameWithoutExtension`, `GetDirectoryName`, `Combine`, `IsPathRooted` |
| linq.dfy | Linq | `Distinct`, `OrderBy(a => a)` |
| dependency_graph.dfy | DependencyGraph | the disk, the probed candidate paths, reachability |
| assembly_helper.dfy | AssemblyHelper | the resolver, `GetShortAssemblyFileName` |
| assembly_analyzer.dfy | AssemblyAnalyzer | the second copy of the resolver, written as a loop |
| assembly_name_comparer.dfy | AssemblyNameComparer | `AssemblyNameComparer.Equals` |
| assembly_name_comparer_examples.dfy | AssemblyNameComparerExamples | the comparer on concrete names |
| progress_pattern.dfy | ProgressPattern | the progress regular expression |
| command_line.dfy | CommandLine | `NgenScenarios`, `BuildExtraCmdLine`, the action command lines and their reader |
| console_app.dfy | ConsoleApp | what the process library reports and is asked to do |
| ngen_launcher.dfy | NgenLauncher | `NgenLauncher` |
| ngen_launcher_traces.dfy | NgenLauncherTraces | runs of `NgenLauncher` |
| ngen_wrapper.dfy | NgenWrapper | `NgenWrapper` and its runs |

## Model

| member | source | states |
|---|---|---|
| Paths.FileName | NgenWrapper/AssemblyHelper.cs:44 | the file name is the suffix of the path after its last separator or volume separator, and it contains neither |
| Paths.FileNameWithoutExtension | NgenWrapper/AssemblyNameComparer.cs:11-12 | the stem is a prefix of the file name; it is the whole file name exactly when the file name has no dot; otherwise it ends just before the last dot |
| Paths.DirectoryName | NgenWrapper/AssemblyHelper.cs:26 | null exactly for a bare root; otherwise a prefix of the path, no shorter than the root and shorter than the path, with no separator after it; when longer than the root it ends just before the last separator |
| Paths.Combine | NgenWrapper/AssemblyHelper.cs:30 | a non-empty name ends the combined path; a relative name keeps the folder in front |
| Paths.FileNameOfCombine | NgenWrapper/AssemblyHelper.cs:30 | combining any folder with a plain file name and adding a suffix gives a path whose file name is that name plus the suffix |
| Paths.StemOfLastExtension | NgenWrapper/AssemblyNameComparer.cs:11 | a file name `name.ext` whose extension has no dot has `name` as its name without extension |
| OrdinalStrings.EqualsIgnoreCaseIsFoldEquality | NgenWrapper/AssemblyNameComparer.cs:20 | ordinal ignore-case equality holds exactly when the upper-cased strings are equal |
| OrdinalStrings.EndsWithAppended | NgenWrapper/AssemblyHelper.cs:49-50 | a name with `.exe` or `.dll` appended passes the ignore-case suffix test |
| OrdinalStrings.BelowIrreflexive | NgenWrapper/AssemblyHelper.cs:20 | no path sorts before itself in the ordinal order |
| OrdinalStrings.BelowTransitive | NgenWrapper/AssemblyHelper.cs:20 | the ordinal order is transitive |
| OrdinalStrings.BelowTotal | NgenWrapper/AssemblyHelper.cs:20 | any two different paths are ordered one way or the other |
| OrdinalStrings.BelowAsymmetric | NgenWrapper/AssemblyHelper.cs:20 | two paths are never ordered both ways |
| Linq.Distinct | NgenWrapper/AssemblyHelper.cs:20 | `Distinct` keeps exactly the elements of its input, each once |
| Linq.DistinctOfDistinct | NgenWrapper/AssemblyHelper.cs:20 | `Distinct` leaves a list without duplicates unchanged |
| Linq.Insert | NgenWrapper/AssemblyHelper.cs:20 | inserting into a sorted list keeps it sorted and adds exactly the one element |
| Linq.OrderBy | NgenWrapper/AssemblyHelper.cs:20 | `OrderBy(a => a)` returns a sorted permutation of its input |
| Linq.OrderByKeepsNoDuplicates | NgenWrapper/AssemblyHelper.cs:20 | sorting a list without duplicates yields one without duplicates |
| Linq.SortedDistinctIsStrict | NgenWrapper/AssemblyHelper.cs:20 | a sorted list without duplicates is strictly increasing |
| Linq.StrictlySortedUnique | NgenWrapper/AssemblyHelper.cs:20 | two strictly increasing lists with the same elements are equal, so the sorted duplicate-free listing of a set is unique |
| DependencyGraph.SearchFolder | NgenWrapper/AssemblyHelper.cs:26 | the search folder is the application base when one is given, and otherwise the assembly's directory, or empty when the path is a bare root |
| DependencyGraph.Candidate | NgenWrapper/AssemblyHelper.cs:30 | every probed candidate path ends in `.dll` |
| DependencyGraph.CandidateIsInSearchFolder | NgenWrapper/AssemblyHelper.cs:13-30 | a plain reference name is probed inside a search folder that is non-empty and does not end in a separator or `:`: the candidate's directory is the application base, or without one the directory of the referencing assembly, so every candidate is then a sibling of that assembly |
| DependencyGraph.NoFileReachesItself | NgenWrapper/AssemblyHelper.cs:34 | when the references can be ranked, which the recursion needs to end, no file reaches itself |
| AssemblyHelper.FindReferencedAssemblies | NgenWrapper/AssemblyHelper.cs:23-40 | a successful walk yields only existing, loadable files; a failure names a path that cannot be loaded. The walk takes one probe, built once from the application base, and hands it unchanged to every level of the recursion (line 34) |
| AssemblyHelper.FoundAreReachable | NgenWrapper/AssemblyHelper.cs:23-40 | soundness: every yielded path is reachable from the start through local references |
| AssemblyHelper.FailureIsReachable | NgenWrapper/AssemblyHelper.cs:25 | the path that fails to load is the start file or one reachable from it |
| AssemblyHelper.FoundIsComplete | NgenWrapper/AssemblyHelper.cs:23-40 | completeness: every path reachable from the start is yielded |
| AssemblyHelper.FoundContainsEdge | NgenWrapper/AssemblyHelper.cs:31-37 | an existing candidate of any reference is yielded, together with everything it yields |
| AssemblyHelper.GetLocalReferences | NgenWrapper/AssemblyHelper.cs:18-21 | success exactly when the start and all it reaches load; then the result is strictly sorted and holds exactly the reachable paths; a failure names an unloadable path on the way |
| AssemblyHelper.LocalReferencesAreTheSortedReachableSet | NgenWrapper/AssemblyHelper.cs:18-21 | the result is the one strictly increasing listing of the reachable set |
| AssemblyHelper.StartIsNotReturned | NgenWrapper/AssemblyHelper.cs:18-21 | the start file is never among its own local references |
| AssemblyHelper.ReturnedAreCandidates | NgenWrapper/AssemblyHelper.cs:28-33 | every returned path exists and is the `.dll` candidate of some reference of some loadable file |
| AssemblyHelper.GetShortAssemblyFileName | NgenWrapper/AssemblyHelper.cs:42-57 | null maps to null; otherwise the file name is kept when it ends with `.exe` or `.dll` in any case, and is extended only when it does not; the result has no directory part and always carries one of the two extensions; a name without either extension gets `.exe` when that file exists and `.dll` otherwise |
| AssemblyHelper.ShortNameIsIdempotent | NgenWrapper/AssemblyHelper.cs:42-57 | normalising a normalised name changes nothing |
| AssemblyHelper.ShortNameKeepsStem | NgenWrapper/AssemblyHelper.cs:53-56 | for a name whose file name has no dot or already ends in `.exe`/`.dll`, the added extension does not change the name without extension, so the comparer still matches the normalised name with the announced one |
| AssemblyHelper.DottedNameChangesStem | NgenWrapper/AssemblyHelper.cs:53-56 | the restriction is needed: a plain dotted name without `.exe`/`.dll`, such as `Ns.A1`, gains an extension, and its name without extension becomes the whole name (`Ns.A1`), which differs from the name without extension before normalising (`Ns`) |
| AssemblyAnalyzer.FindReferencedAssemblies | NgenWrapper/AssemblyAnalyzer.cs:21-38 | the loop over the references computes exactly what the recursive resolver yields |
| AssemblyAnalyzer.GetLocalReferences | NgenWrapper/AssemblyAnalyzer.cs:16-19 | the second copy returns exactly what `AssemblyHelper.GetLocalReferences` returns |
| AssemblyNameComparer.Equals | NgenWrapper/AssemblyNameComparer.cs:9-21 | two nulls are equal; null and a name differ; two names are equal exactly when their names without extension are equal ignoring case |
| AssemblyNameComparer.EqualsIsEquivalence | NgenWrapper/AssemblyNameComparer.cs:9-21 | the comparer is reflexive, symmetric and transitive |
| AssemblyNameComparer.EqualsDependsOnlyOnStems | NgenWrapper/AssemblyNameComparer.cs:11-12 | only the name without extension of each side matters: the directory and the last extension can change freely |
| AssemblyNameComparer.EqualsIgnoresDirectoryExtensionAndCase | NgenWrapper/AssemblyNameComparer.cs:9-21 | a plain name equals any spelling of it that differs in case and carries a directory and one extension |
| AssemblyNameComparerExamples.ExtensionAndCaseAreIgnored | NgenWrapper.Tests/AssemblyAnalyzerTest.cs:52 | `Assembly1.dll` equals `assembly1` |
| AssemblyNameComparerExamples.CaseIsIgnored | NgenWrapper.Tests/AssemblyAnalyzerTest.cs:51 | `assembly1.exe` equals `ASSEMBLY1.EXE` |
| AssemblyNameComparerExamples.DifferentNamesDiffer | NgenWrapper.Tests/AssemblyAnalyzerTest.cs:57 | `Assembly1` and `assembly2` differ |
| AssemblyNameComparerExamples.SameFiles | NgenWrapper/AssemblyNameComparer.cs:9-21 | two plain file names with one extension each are equal when their names agree up to case |
| AssemblyNameComparerExamples.DifferentFiles | NgenWrapper/AssemblyNameComparer.cs:9-21 | two plain file names with one extension each differ when their names do not agree up to case |
| AssemblyNameComparerExamples.DifferentPlainNames | NgenWrapper/AssemblyNameComparer.cs:9-21 | two plain names without dots differ when they do not agree up to case |
| AssemblyNameComparerExamples.FileMatchesPlainName | NgenWrapper/AssemblyNameComparer.cs:9-21 | a plain file name with one extension equals a dot-free name that agrees with its name up to case |
| AssemblyNameComparerExamples.ExtensionsAreNotCompared | NgenWrapper/AssemblyNameComparer.cs:11-12 | `X.exe` equals `X.dll`, because only the names without extension are compared |
| AssemblyNameComparerExamples.OnlyLastExtensionIsDropped | NgenWrapper/AssemblyNameComparer.cs:11-12 | `Ns.A1.dll` and `Ns.a1` differ, because their names without extension are `Ns.A1` and `Ns` |
| ProgressPattern.LazyEnd | NgenWrapper/NgenLauncher.cs:222 | the lazy group ends at the first terminator after its start and does not run over a line break |
| ProgressPattern.MatchIsAnnounced | NgenWrapper/NgenLauncher.cs:222 | on a line without a line break, `Match`, the model of the regular expression engine's leftmost lazy match, returns the text between the first `assembly ` and the nearest `,` or ` (CLR` after it |
| ProgressPattern.NoKeywordNoMatch | NgenWrapper/NgenLauncher.cs:222 | a line without `assembly ` never matches |
| ProgressPattern.MatchShape | NgenWrapper/NgenLauncher.cs:222 | a matched name follows an occurrence of `assembly `, is followed by a terminator, and contains neither a terminator nor a line break |
| CommandLine.BuildExtraCmdLine | NgenWrapper/NgenLauncher.cs:177-197 | no configuration file, no application base and no named scenario give no switches at all |
| CommandLine.FlagBits | NgenWrapper/NgenLauncher.cs:187-194 | the three `HasFlag` tests recover exactly the named bits of the scenarios |
| CommandLine.ExtraRoundTrip | NgenWrapper/NgenLauncher.cs:177-197 | the options can be read back from the switches, except the scenario bits that have no switch |
| CommandLine.InstallRoundTrip | NgenWrapper/NgenLauncher.cs:61-63 | the install command line built by `LauncherCommandLine` reads back as the same install |
| CommandLine.UninstallRoundTrip | NgenWrapper/NgenLauncher.cs:82-84 | the uninstall command line built by `LauncherCommandLine` reads back as the same uninstall |
| CommandLine.DisplayRoundTrip | NgenWrapper/NgenLauncher.cs:100 | the display command line built by `LauncherCommandLine` reads back as the same display |
| CommandLine.CommandLineRoundTrip | NgenWrapper/NgenLauncher.cs:57-129 | every action whose strings contain no quote reads back from the command line `LauncherCommandLine` builds for it (lines 61-63, 82-84, 100, 113 and 126), so no two such actions share a command line |
| NgenLauncher.New | NgenWrapper/NgenLauncher.cs:26-29 | a new launcher is idle, not disposed, has processed nothing, and points at `ngen.exe` combined onto the runtime directory |
| NgenLauncher.ActionGuard | NgenWrapper/NgenLauncher.cs:261-276 | an action throws `ObjectDisposed` exactly when the launcher is disposed, `InvalidOperation` exactly when it is not disposed but still holds a process, and nothing otherwise |
| NgenLauncher.Start | NgenWrapper/NgenLauncher.cs:57-129 | a guarded action changes nothing; otherwise the exit code and counter are reset and the action's command line is started. The expected list is built exactly for install and uninstall of an existing file: the target, then the paths reachable from it, each once, in ordinal order, so the list's length (the progress total) is one more than the number of reachable paths. The action fails exactly when the list is built and the target or some path reachable from it cannot be loaded; the failure names that path, leaves the list holding only the target, and does not start ngen |
| NgenLauncher.ContainsNameIsExists | NgenWrapper/NgenLauncher.cs:234 | the scan finds a name exactly when some expected assembly equals it under the comparer |
| NgenLauncher.Announcement | NgenWrapper/NgenLauncher.cs:228-234 | a line announces an assembly exactly when a list is expected, the pattern matches and the comparer finds the matched name in the list |
| NgenLauncher.UpdateProgress | NgenWrapper/NgenLauncher.cs:225-249 | an announcing line adds one to the counter and raises one `Progress` with the normalised name, the new count and the list's size; any other line changes nothing |
| NgenLauncher.OnConsoleOutput | NgenWrapper/NgenLauncher.cs:208-220 | a line is forwarded as `Output` first, then progress is updated; nothing is asked of the library |
| NgenLauncher.OnConsoleExited | NgenWrapper/NgenLauncher.cs:251-259 | the exit records the code, releases the process and raises `Exit` with the code |
| NgenLauncher.Cancel | NgenWrapper/NgenLauncher.cs:135-143 | throws when disposed; otherwise asks a held process to stop with the timeout, and does nothing without one |
| NgenLauncher.WaitForExit | NgenWrapper/NgenLauncher.cs:150-159 | throws exactly when disposed; returns the library's answer while a process is held, and true otherwise |
| NgenLauncher.Dispose | NgenWrapper/NgenLauncher.cs:328-346 | the first dispose stops a held process with 1000 ms and releases it; disposing again does nothing |
| NgenLauncherTraces.LineStep | NgenWrapper/NgenLauncher.cs:208-249 | one line raises an `Output`, then at most one `Progress` whose counter is one more than before and whose total is the list's size |
| NgenLauncherTraces.ProgressCountsUp | NgenWrapper/NgenLauncher.cs:225-249 | over a run the progress counters are consecutive, start one above the stored count, number as many as the count grew, and all report the list's size as total |
| NgenLauncherTraces.NoListNoProgress | NgenWrapper/NgenLauncher.cs:199-206 | a run started without an expected list (display, display-all, update, a missing file) reports no progress |
| NgenLauncherTraces.CurrentWithinTotal | NgenWrapper/NgenProgressEventArgs.cs:23 | when ngen announces expected assemblies no more often than the list is long, every counter lies between 1 and the total |
| NgenLauncherTraces.RepeatedAnnouncementOverruns | NgenWrapper/NgenLauncher.cs:234-240 | an announcing line reported twice to a launcher expecting one assembly gives counters 1 and 2, both with total 1 |
| NgenLauncherTraces.CurrentCanExceedTotal | NgenWrapper/NgenProgressEventArgs.cs:23 | the documented bound Current ≤ Total can fail: the line `assembly A,` reported twice while `A` alone is expected reports 2 of 1 |
| NgenLauncherTraces.EveryLineIsForwarded | NgenWrapper/NgenLauncher.cs:208-220 | while the process runs, every reported line reaches subscribers as `Output`, in order, and nothing is asked of the library |
| NgenLauncherTraces.ExitEndsTheRun | NgenWrapper/NgenLauncher.cs:251-259 | the exit releases the process, records the code and raises `Exit` last; nothing reported afterwards reaches subscribers |
| NgenLauncherTraces.ExitAllowsNextAction | NgenWrapper/NgenLauncher.cs:261-265 | an action is refused while the process is held and accepted once it has exited |
| NgenLauncherTraces.NewIsValid | NgenWrapper/NgenLauncher.cs:26-29 | a new launcher satisfies the invariant |
| NgenLauncherTraces.ValidIsKept | NgenWrapper/NgenLauncher.cs:273-300 | every action, callback, cancel and dispose keeps the invariant: a disposed launcher holds no process, the counter is never negative, and an expected list is never empty |
| NgenLauncherTraces.DisposedRejectsEverything | NgenWrapper/NgenLauncher.cs:267-271 | after dispose, every action and cancel throws `ObjectDisposed` and changes nothing, and wait throws too |
| NgenLauncherTraces.RejectedActionChangesNothing | NgenWrapper/NgenLauncher.cs:273-281 | a refused action keeps the exit code, the list and the counter of the current run, and asks nothing of the library |
| NgenWrapper.New | NgenWrapper/NgenWrapper.cs:18-21 | a new wrapper is idle, not disposed, has no errors, and points at `ngen.exe` combined onto the runtime directory |
| NgenWrapper.CommandLineIsDefaultedLauncherLine | NgenWrapper/NgenWrapper.cs:57-143 | the wrapper's command line for an action is the launcher's for the same action with every option at its default |
| NgenWrapper.ActionGuard | NgenWrapper/NgenWrapper.cs:186-196 | an action throws `ObjectDisposed` exactly when disposed, and `InvalidOperation` exactly when a process is still held |
| NgenWrapper.Start | NgenWrapper/NgenWrapper.cs:57-143 | a guarded action changes nothing; otherwise the errors and exit code are cleared and the command line is started |
| NgenWrapper.OnConsoleOutput | NgenWrapper/NgenWrapper.cs:166-174 | a standard-error line is added to the errors, other lines are not, and every line is forwarded as reported |
| NgenWrapper.OnConsoleExited | NgenWrapper/NgenWrapper.cs:176-184 | the exit records the code, releases the process and raises `Exited` |
| NgenWrapper.Cancel | NgenWrapper/NgenWrapper.cs:145-153 | throws when disposed; otherwise asks a held process to stop with the timeout |
| NgenWrapper.WaitForExit | NgenWrapper/NgenWrapper.cs:155-164 | throws exactly when disposed; returns the library's answer while a process is held, and true otherwise |
| NgenWrapper.Dispose | NgenWrapper/NgenWrapper.cs:238-250 | the first dispose stops a held process with 2000 ms and releases it; disposing again does nothing |
| NgenWrapper.ErrorsAreStandardErrorLines | NgenWrapper/NgenWrapper.cs:166-174 | while the process runs, the errors grow by exactly the standard-error lines in order, and every line is forwarded in order |
| NgenWrapper.ErrorsBelongToTheCurrentRun | NgenWrapper/NgenWrapper.cs:57-69 | after an action starts, the errors are exactly the standard-error lines of this run |
| NgenWrapper.ExitEndsTheRun | NgenWrapper/NgenWrapper.cs:176-184 | the exit releases the process, records the code and raises `Exited`; nothing reported afterwards reaches subscribers or the errors |
| NgenWrapper.ValidIsKept | NgenWrapper/NgenWrapper.cs:238-250 | every operation and callback keeps the invariant that a disposed wrapper holds no process |
| NgenWrapper.DisposedRejectsEverything | NgenWrapper/NgenWrapper.cs:192-196 | after dispose, every action and cancel throws `ObjectDisposed` and changes nothing, and wait throws too |
| NgenWrapper.RejectedActionChangesNothing | NgenWrapper/NgenWrapper.cs:186-196 | a refused action keeps the exit code and errors of the current run |

## Behaviour of the code worth knowing

- **Comparer.** `AssemblyNameComparer.cs:11-12` drops the last extension of both names before
  comparing, whether or not it is `.exe` or `.dll`. So `X.exe` equals `X.dll`
  (`ExtensionsAreNotCompared`), and `Ns.A1.dll` differs from `Ns.a1` (`OnlyLastExtensionIsDropped`).
- **Progress name.** `NgenLauncher.cs:239` normalises the name announced on the output line,
  not the matching entry of the expected list. A name that already ends in `.exe` or `.dll` is
  kept. Otherwise `AssemblyHelper.cs:53` adds `.exe` when a file of that name exists and `.dll`
  otherwise. That lookup uses the bare file name, so it is resolved against the process's
  current directory, not the target's folder; the model takes the set of existing names as a
  parameter.
- **Current and total.** `NgenProgressEventArgs.cs:23` documents Current ≤ Total.
  `NgenLauncher.cs:238` counts every announcing line, so a repeated announcement breaks it
  (`CurrentCanExceedTotal`).
- **Display and update.** `NgenLauncher.cs:96-129` builds no expected list for these actions,
  so they never report progress (`NoListNoProgress`).

## Tests that disagree with the code

The unit tests in `AssemblyAnalyzerTest.cs` call members that this `AssemblyAnalyzer` does not
have. Some of their expectations differ from the code, at lines 29, 31, 34, 53, 54, 55 and 58.

- At line 58 the test expects `Assembly1.exe` and `Assembly1.dll` to differ. The comparer finds
  them equal.
- At line 53 the test expects `Namespace.Assembly1.dll` to equal `Namespace.assembly1`. The
  comparer compares `Namespace.Assembly1` with `Namespace` (`OnlyLastExtensionIsDropped`).
- At lines 54 and 55 the test expects `Folder Name\\Namespace.Assembly1.dll` to equal a name
  whose file name is `Namespace.assembly1`. The comparer again compares `Namespace.Assembly1`
  with `Namespace`.

## Left out

- **Console process.** The `ConsoleApp` process library is left out: its threads, pipes, the
  control-break signal and its states. Its requests are `Spawn`, `Stop` and `Release` effects.
  Its reports are the inputs of the callbacks. Its answer to `WaitForExit(timeout)` is the
  parameter `finished`, so the timeout value itself is not modelled.
- **Concurrency.** Callbacks arrive one at a time, so an exit racing a stop or a dispose is not
  modelled.
- **Process start failure.** `Run()` throwing after the handle is stored is not modelled. In
  the source this leaves the handle set.
- **Throwing subscribers.** Subscriber handlers never throw, and neither does the name
  normaliser. The launcher catches and traces an exception from the `Output` handler
  (`NgenLauncher.cs:210-217`). It does the same for the progress block (`NgenLauncher.cs:236-245`),
  where the counter has already gone up when the normaliser or the `Progress` handler throws. It
  raises `Exit` outside any `try` (`NgenLauncher.cs:258`). The wrapper guards none of its
  events. None of these exception paths is modelled.
- NgenLauncher.IsRunning: it is modelled as "a process handle is held". The library's
  Running/Exiting state is external, and the handle is dropped when the exit is reported.
- NgenWrapper.IsRunning: the library's Running/Exiting state is a parameter.
- **File-system queries.** `Assembly.ReflectionOnlyLoadFrom`, `GetReferencedAssemblies` and
  `File.Exists` are the `Disk` data. A path missing from its reference map is one that fails to
  load.
- AssemblyHelper.FindReferencedAssemblies: requires a rank that decreases along every local
  reference of every file on the `Disk`, that is, a reference graph that is acyclic over the
  whole `Disk`, including files the start never reaches. The source keeps no visited set and
  recurses without end only on a cycle it reaches; a disk whose only cycle is unreachable from
  the start is outside the model, although the source handles it. The same requirement carries over to `AssemblyHelper.GetLocalReferences`,
  `AssemblyAnalyzer.FindReferencedAssemblies`, `AssemblyAnalyzer.GetLocalReferences` and
  `NgenLauncher.Start`.
- **Lazy enumeration.** `FindReferencedAssemblies` is modelled as the finished list or the
  first load failure, because every caller drains it.
- **Path rules.** `System.IO.Path` is simplified:
  - separators are `\` and `/`, and `:` is the volume separator;
  - roots are a leading separator or a drive letter;
  - UNC paths, invalid characters and trailing-separator rules are left out.
- Paths.DirectoryName: its contract covers the prefix, the root and the last separator. It
  does not cover the .NET special cases listed above. The .NET Framework also normalises the
  result, turning `/` into `\` and collapsing runs of separators. The model keeps the input's
  spelling, so `a/b/App.exe` probes `a/b\Lib.dll` rather than `a\b\Lib.dll`.
- **Case and order.** Ignore-case comparison folds ASCII letters only. `OrderBy(a => a)` is the
  ordinal code-point order rather than the culture-sensitive default collation.
- **Nulls.** The target of an action is never null. A null configuration file or application
  base, and the comparer's and the normaliser's null inputs, are modelled as `None`.
- **Arithmetic.** The progress counter is an unbounded integer, so `int` overflow after 2^31
  announcements is left out.
- NgenLauncherTraces.CurrentWithinTotal: the documented bound Current ≤ Total is proved only
  when the announcements stay within the list's length. `CurrentCanExceedTotal` shows it does
  not hold in general.
- ProgressPattern.MatchIsAnnounced: it holds for lines without a line break. On a line with
  one, the engine may skip to a later `assembly `. The model keeps the engine's behaviour
  (`Match`) for all lines.
- **Out of scope:**
  - `GetHashCode`, the finalizers and `Trace` output;
  - the event-argument classes, which are the `Notice` datatypes;
  - `Ngen.cs`, the UI in `NgenUI/MainForm.cs` and `NgenUI/Program.cs`;
  - the tests' concrete `DummyApplication.exe` assemblies.
- **Runtime directory.** `RuntimeEnvironment.GetRuntimeDirectory()` is a parameter of `New`.
