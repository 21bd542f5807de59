/** `AssemblyHelper`: the local-dependency resolver and the short-file-name normaliser.

    `FindReferencedAssemblies` is a lazy depth-first enumeration in the source; every caller
    drains it (through `Distinct`, `OrderBy` and `ToList`), so it is modelled as the list it
    yields, or as the path whose `ReflectionOnlyLoadFrom` threw first in enumeration order. */
module AssemblyHelper {
  import opened Wrappers
  import opened Paths
  import opened OrdinalStrings
  import opened Linq
  import opened DependencyGraph

  /** The paths yielded by `FindReferencedAssemblies(file, probe)`, in enumeration order. The
      failure carries the path that could not be loaded. */
  function FindReferencedAssemblies(d: Disk, file: string, probe: Probe, ghost rank: string -> nat): (r: Result<seq<string>, string>)
    requires Ranked(d, probe, rank)
    ensures r.Success? ==> file in d.refs
    ensures r.Success? ==> forall x :: x in r.value ==> x in d.files && x in d.refs
    ensures r.Failure? ==> r.error !in d.refs
    decreases rank(file), 1
  {
    if file !in d.refs then Failure(file)
    else FindFrom(d, file, probe, rank, 0)
  }

  /** The part of the enumeration of `file` that starts at its `i`-th reference. */
  function FindFrom(d: Disk, file: string, probe: Probe, ghost rank: string -> nat, i: nat): (r: Result<seq<string>, string>)
    requires Ranked(d, probe, rank)
    requires file in d.refs && i <= |d.refs[file]|
    ensures r.Success? ==> forall x :: x in r.value ==> x in d.files && x in d.refs
    ensures r.Failure? ==> r.error !in d.refs
    decreases rank(file), 0, |d.refs[file]| - i
  {
    if i == |d.refs[file]| then Success([])
    else
      var c := probe(file, d.refs[file][i]);
      if c !in d.files then FindFrom(d, file, probe, rank, i + 1)
      else
        assert rank(c) < rank(file);
        match FindReferencedAssemblies(d, c, probe, rank)
        case Failure(e) => Failure(e)
        case Success(sub) =>
          match FindFrom(d, file, probe, rank, i + 1)
          case Failure(e) => Failure(e)
          case Success(rest) => Success([c] + sub + rest)
  }

  /** Soundness: every yielded path is reachable from `file` through local references. */
  lemma {:induction false} FoundAreReachable(d: Disk, file: string, probe: Probe, rank: string -> nat)
    requires Ranked(d, probe, rank)
    requires FindReferencedAssemblies(d, file, probe, rank).Success?
    ensures forall x :: x in FindReferencedAssemblies(d, file, probe, rank).value ==> Reachable(d, probe, file, x)
    decreases rank(file), 1
  {
    FoundFromAreReachable(d, file, probe, rank, 0);
  }

  lemma {:induction false} FoundFromAreReachable(d: Disk, file: string, probe: Probe, rank: string -> nat, i: nat)
    requires Ranked(d, probe, rank)
    requires file in d.refs && i <= |d.refs[file]|
    requires FindFrom(d, file, probe, rank, i).Success?
    ensures forall x :: x in FindFrom(d, file, probe, rank, i).value ==> Reachable(d, probe, file, x)
    decreases rank(file), 0, |d.refs[file]| - i
  {
    if i < |d.refs[file]| {
      var c := probe(file, d.refs[file][i]);
      FoundFromAreReachable(d, file, probe, rank, i + 1);
      if c in d.files {
        assert rank(c) < rank(file);
        assert Edge(d, probe, file, c);
        EdgeIsReachable(d, probe, file, c);
        FoundAreReachable(d, c, probe, rank);
        forall x | x in FindReferencedAssemblies(d, c, probe, rank).value
          ensures Reachable(d, probe, file, x)
        {
          ReachableThroughEdge(d, probe, file, c, x);
        }
      }
    }
  }

  /** A failure names `file` itself or a path reachable from it: the first one that cannot be
      loaded. */
  lemma {:induction false} FailureIsReachable(d: Disk, file: string, probe: Probe, rank: string -> nat)
    requires Ranked(d, probe, rank)
    requires FindReferencedAssemblies(d, file, probe, rank).Failure?
    ensures var e := FindReferencedAssemblies(d, file, probe, rank).error;
            e == file || Reachable(d, probe, file, e)
    decreases rank(file), 1
  {
    if file in d.refs {
      FailureFromIsReachable(d, file, probe, rank, 0);
    }
  }

  lemma {:induction false} FailureFromIsReachable(d: Disk, file: string, probe: Probe, rank: string -> nat, i: nat)
    requires Ranked(d, probe, rank)
    requires file in d.refs && i <= |d.refs[file]|
    requires FindFrom(d, file, probe, rank, i).Failure?
    ensures Reachable(d, probe, file, FindFrom(d, file, probe, rank, i).error)
    decreases rank(file), 0, |d.refs[file]| - i
  {
    var c := probe(file, d.refs[file][i]);
    if c in d.files {
      assert rank(c) < rank(file);
      var sub := FindReferencedAssemblies(d, c, probe, rank);
      if sub.Failure? {
        assert Edge(d, probe, file, c);
        FailureIsReachable(d, c, probe, rank);
        if sub.error == c {
          EdgeIsReachable(d, probe, file, c);
        } else {
          ReachableThroughEdge(d, probe, file, c, sub.error);
        }
      } else {
        FailureFromIsReachable(d, file, probe, rank, i + 1);
      }
    } else {
      FailureFromIsReachable(d, file, probe, rank, i + 1);
    }
  }

  /** One step of the enumeration: what is yielded from reference `i + 1` on is yielded from
      `i` on, and so is an existing candidate at `i` with everything it yields. */
  lemma FindFromStep(d: Disk, file: string, probe: Probe, rank: string -> nat, i: nat)
    requires Ranked(d, probe, rank)
    requires file in d.refs && i < |d.refs[file]|
    requires FindFrom(d, file, probe, rank, i).Success?
    ensures FindFrom(d, file, probe, rank, i + 1).Success?
    ensures forall y :: y in FindFrom(d, file, probe, rank, i + 1).value ==> y in FindFrom(d, file, probe, rank, i).value
    ensures var c := probe(file, d.refs[file][i]);
            c in d.files ==>
              FindReferencedAssemblies(d, c, probe, rank).Success? &&
              c in FindFrom(d, file, probe, rank, i).value &&
              forall y :: y in FindReferencedAssemblies(d, c, probe, rank).value ==> y in FindFrom(d, file, probe, rank, i).value
  {
    var c := probe(file, d.refs[file][i]);
    if c in d.files {
      assert rank(c) < rank(file);
    }
  }

  /** The enumeration from reference `i` on contains the existing candidate of every later
      reference `j`, together with everything that candidate yields. */
  lemma {:induction false} FoundFromContains(d: Disk, file: string, probe: Probe, rank: string -> nat, i: nat, j: nat)
    requires Ranked(d, probe, rank)
    requires file in d.refs && i <= j < |d.refs[file]|
    requires probe(file, d.refs[file][j]) in d.files
    requires FindFrom(d, file, probe, rank, i).Success?
    ensures var c := probe(file, d.refs[file][j]);
            var sub := FindReferencedAssemblies(d, c, probe, rank);
            sub.Success? && c in FindFrom(d, file, probe, rank, i).value &&
            forall y :: y in sub.value ==> y in FindFrom(d, file, probe, rank, i).value
    decreases j - i
  {
    FindFromStep(d, file, probe, rank, i);
    if i < j {
      FoundFromContains(d, file, probe, rank, i + 1, j);
    }
  }

  /** Closure: an existing candidate of any reference of `file` is yielded, with everything
      that candidate yields. */
  lemma FoundContainsEdge(d: Disk, file: string, probe: Probe, rank: string -> nat, b: string)
    requires Ranked(d, probe, rank)
    requires FindReferencedAssemblies(d, file, probe, rank).Success?
    requires Edge(d, probe, file, b)
    ensures b in FindReferencedAssemblies(d, file, probe, rank).value
    ensures FindReferencedAssemblies(d, b, probe, rank).Success?
    ensures forall y :: y in FindReferencedAssemblies(d, b, probe, rank).value ==>
              y in FindReferencedAssemblies(d, file, probe, rank).value
  {
    var n :| n in d.refs[file] && b == probe(file, n);
    var j :| 0 <= j < |d.refs[file]| && d.refs[file][j] == n;
    FoundFromContains(d, file, probe, rank, 0, j);
  }

  /** Completeness: every path reachable from `file` is yielded. */
  lemma {:induction false} ChainIsFound(d: Disk, probe: Probe, rank: string -> nat, c: seq<string>)
    requires Ranked(d, probe, rank)
    requires IsChain(d, probe, c) && |c| >= 2
    requires FindReferencedAssemblies(d, c[0], probe, rank).Success?
    ensures c[|c| - 1] in FindReferencedAssemblies(d, c[0], probe, rank).value
    decreases |c|
  {
    assert Edge(d, probe, c[0], c[1]);
    FoundContainsEdge(d, c[0], probe, rank, c[1]);
    if |c| > 2 {
      forall i | 0 <= i < |c[1..]| - 1
        ensures Edge(d, probe, c[1..][i], c[1..][i + 1])
      {
        assert c[1..][i] == c[i + 1] && c[1..][i + 1] == c[i + 2];
      }
      ChainIsFound(d, probe, rank, c[1..]);
    }
  }

  lemma FoundIsComplete(d: Disk, file: string, probe: Probe, rank: string -> nat)
    requires Ranked(d, probe, rank)
    requires FindReferencedAssemblies(d, file, probe, rank).Success?
    ensures forall x :: Reachable(d, probe, file, x) ==> x in FindReferencedAssemblies(d, file, probe, rank).value
  {
    forall x | Reachable(d, probe, file, x)
      ensures x in FindReferencedAssemblies(d, file, probe, rank).value
    {
      var c :| IsChain(d, probe, c) && |c| >= 2 && c[0] == file && c[|c| - 1] == x;
      ChainIsFound(d, probe, rank, c);
    }
  }

  /** `GetLocalReferences(file, appBase)`: the yielded paths, each once, in ordinal order. */
  function GetLocalReferences(d: Disk, file: string, appBase: Option<string>, ghost rank: string -> nat): (r: Result<seq<string>, string>)
    requires Ranked(d, ProbeFor(appBase), rank)
    ensures r.Success? <==> LoadsAll(d, ProbeFor(appBase), file)
    ensures r.Success? ==> StrictlySorted(r.value)
    ensures r.Success? ==> forall x :: x in r.value <==> Reachable(d, ProbeFor(appBase), file, x)
    ensures r.Failure? ==> r.error !in d.refs && (r.error == file || Reachable(d, ProbeFor(appBase), file, r.error))
  {
    match FindReferencedAssemblies(d, file, ProbeFor(appBase), rank)
    case Failure(e) =>
      FailureIsReachable(d, file, ProbeFor(appBase), rank);
      Failure(e)
    case Success(found) =>
      FoundAreReachable(d, file, ProbeFor(appBase), rank);
      FoundIsComplete(d, file, ProbeFor(appBase), rank);
      var unique := Distinct(found);
      OrderByKeepsNoDuplicates(unique);
      var sorted := OrderBy(unique);
      SortedDistinctIsStrict(sorted);
      assert forall x :: x in sorted <==> x in multiset(sorted);
      Success(sorted)
  }

  /** The result is determined by the reachable set alone: it is the one strictly increasing
      listing of that set. */
  lemma LocalReferencesAreTheSortedReachableSet(d: Disk, file: string, appBase: Option<string>, rank: string -> nat, listing: seq<string>)
    requires Ranked(d, ProbeFor(appBase), rank)
    requires GetLocalReferences(d, file, appBase, rank).Success?
    requires StrictlySorted(listing)
    requires forall x :: x in listing <==> Reachable(d, ProbeFor(appBase), file, x)
    ensures GetLocalReferences(d, file, appBase, rank).value == listing
  {
    StrictlySortedUnique(GetLocalReferences(d, file, appBase, rank).value, listing);
  }

  /** The start file is never among its own local references: the graph is acyclic. */
  lemma StartIsNotReturned(d: Disk, file: string, appBase: Option<string>, rank: string -> nat)
    requires Ranked(d, ProbeFor(appBase), rank)
    requires GetLocalReferences(d, file, appBase, rank).Success?
    ensures file !in GetLocalReferences(d, file, appBase, rank).value
  {
    NoFileReachesItself(d, ProbeFor(appBase), rank, file);
  }

  /** Every returned path is the `.dll` candidate of some reference of some loadable file. */
  lemma ReturnedAreCandidates(d: Disk, file: string, appBase: Option<string>, rank: string -> nat, x: string)
    requires Ranked(d, ProbeFor(appBase), rank)
    requires GetLocalReferences(d, file, appBase, rank).Success?
    requires x in GetLocalReferences(d, file, appBase, rank).value
    ensures x in d.files
    ensures exists p, n :: p in d.refs && n in d.refs[p] && x == Candidate(p, appBase, n)
  {
    var c :| IsChain(d, ProbeFor(appBase), c) && |c| >= 2 && c[0] == file && c[|c| - 1] == x;
    assert Edge(d, ProbeFor(appBase), c[|c| - 2], c[|c| - 1]);
  }

  /** The name ends with `.exe` or `.dll`, in any case. */
  predicate HasAssemblyExtension(f: string) {
    EndsWithIgnoreCase(f, ".exe") || EndsWithIgnoreCase(f, ".dll")
  }

  /** `GetShortAssemblyFileName(s)`: the file name of `s`, given a `.exe` or `.dll` extension
      when it has neither; `.exe` is chosen when a file of that name exists. */
  function GetShortAssemblyFileName(s: Option<string>, files: set<string>): (r: Option<string>)
    ensures r.None? <==> s.None?
    ensures r.Some? ==> forall i :: 0 <= i < |r.value| ==> r.value[i] !in NameBoundaries
    ensures r.Some? ==> HasAssemblyExtension(r.value)
    ensures r.Some? ==> var f := FileName(s.value);
              |f| <= |r.value| && r.value[..|f|] == f &&
              (r.value == f <==> HasAssemblyExtension(f))
    ensures r.Some? && r.value == FileName(s.value) + ".exe" ==> r.value in files
    ensures r.Some? ==> var f := FileName(s.value);
              r.value == f || r.value == f + ".exe" || r.value == f + ".dll"
    ensures s.Some? && !HasAssemblyExtension(FileName(s.value)) ==>
              var f := FileName(s.value);
              r.value == (if f + ".exe" in files then f + ".exe" else f + ".dll")
  {
    match s
    case None => None
    case Some(path) =>
      var f := FileName(path);
      if HasAssemblyExtension(f) then Some(f)
      else if f + ".exe" in files then
        WithExtension(f, ".exe");
        Some(f + ".exe")
      else
        WithExtension(f, ".dll");
        Some(f + ".dll")
  }

  /** Appending an extension to a bare file name keeps it bare and makes it end with the
      extension. */
  lemma WithExtension(f: string, ext: string)
    requires forall i :: 0 <= i < |f| ==> f[i] !in NameBoundaries
    requires ext == ".exe" || ext == ".dll"
    ensures forall i :: 0 <= i < |f + ext| ==> (f + ext)[i] !in NameBoundaries
    ensures HasAssemblyExtension(f + ext)
    ensures |f| < |f + ext| && (f + ext)[..|f|] == f
  {
    EndsWithAppended(f, ext);
    assert (f + ext)[..|f|] == f;
    forall i | 0 <= i < |f + ext| ensures (f + ext)[i] !in NameBoundaries {
      if i < |f| {
        assert (f + ext)[i] == f[i];
      } else {
        assert (f + ext)[i] == ext[i - |f|];
      }
    }
  }

  /** A name without a directory part is its own file name. */
  lemma FileNameOfPlainName(f: string)
    requires forall i :: 0 <= i < |f| ==> f[i] !in NameBoundaries
    ensures FileName(f) == f
  {
    FileNameAfterBoundary([], f);
    assert [] + f == f;
  }

  /** Normalising twice is normalising once. */
  lemma ShortNameIsIdempotent(s: Option<string>, files: set<string>)
    ensures GetShortAssemblyFileName(GetShortAssemblyFileName(s, files), files) == GetShortAssemblyFileName(s, files)
  {
    var r := GetShortAssemblyFileName(s, files);
    if r.Some? {
      FileNameOfPlainName(r.value);
    }
  }

  /** The extension added to a name without one does not change its name without extension,
      so the comparer still matches the announced name with its normalised form. */
  lemma ShortNameKeepsStem(s: string, files: set<string>)
    requires '.' !in FileName(s) || HasAssemblyExtension(FileName(s))
    ensures FileNameWithoutExtension(GetShortAssemblyFileName(Some(s), files).value) == FileNameWithoutExtension(s)
  {
    var f := FileName(s);
    if HasAssemblyExtension(f) {
      assert GetShortAssemblyFileName(Some(s), files) == Some(f);
      FileNameOfPlainName(f);
      StemDependsOnFileName(f, s);
    } else {
      var r := if f + ".exe" in files then f + ".exe" else f + ".dll";
      assert GetShortAssemblyFileName(Some(s), files) == Some(r);
      FileNameOfPlainName(r);
      StemOfAppendedExtension(s, r);
    }
  }
  /** The condition of `ShortNameKeepsStem` is needed: a dotted name without an assembly
      extension gains one, so its name without extension becomes the whole name, which is
      longer than its own name without extension (`Ns.A1` gives `Ns.A1.dll`: `Ns.A1`, not `Ns`). */
  lemma DottedNameChangesStem(f: string, files: set<string>)
    requires forall i :: 0 <= i < |f| ==> f[i] !in NameBoundaries
    requires '.' in f && !HasAssemblyExtension(f)
    ensures var r := GetShortAssemblyFileName(Some(f), files).value;
              FileNameWithoutExtension(r) == f && FileNameWithoutExtension(f) != f
  {
    FileNameOfPlainName(f);
    var r := GetShortAssemblyFileName(Some(f), files).value;
    FileNameOfPlainName(r);
    ExtensionIsLastDot(f, if f + ".exe" in files then ".exe" else ".dll");
    StemAtLastDot(r, |f|);
    assert |FileNameWithoutExtension(f)| < |f|;
  }

  /** In `f` followed by `.exe` or `.dll`, the dot after `f` is the last one. */
  lemma ExtensionIsLastDot(f: string, ext: string)
    requires ext == ".exe" || ext == ".dll"
    ensures (f + ext)[|f|] == '.' && (f + ext)[..|f|] == f
    ensures forall j :: |f| < j < |f + ext| ==> (f + ext)[j] != '.'
  {
    assert (f + ext)[..|f|] == f;
    forall j | |f| <= j < |f + ext| ensures (f + ext)[j] == ext[j - |f|] {}
  }




  lemma StemOfAppendedExtension(s: string, r: string)
    requires '.' !in FileName(s)
    requires r == FileName(s) + ".exe" || r == FileName(s) + ".dll"
    requires FileName(r) == r
    ensures FileNameWithoutExtension(r) == FileNameWithoutExtension(s)
  {
    var f := FileName(s);
    DotExtensions(f);
    var ext := if r == f + ".exe" then "exe" else "dll";
    StemOfDottedName(s, r, ext);
  }

  /** The two extensions, split at their dot. */
  lemma DotExtensions(f: string)
    ensures f + ".exe" == f + "." + "exe" && f + ".dll" == f + "." + "dll"
    ensures '.' !in "exe" && '.' !in "dll"
  {
    assert ".exe" == "." + "exe" && ".dll" == "." + "dll";
    assert "exe"[0] != '.' && "exe"[1] != '.' && "exe"[2] != '.';
    assert "dll"[0] != '.' && "dll"[1] != '.' && "dll"[2] != '.';
  }

  lemma StemOfDottedName(s: string, r: string, ext: string)
    requires '.' !in FileName(s) && '.' !in ext
    requires r == FileName(s) + "." + ext
    requires FileName(r) == r
    ensures FileNameWithoutExtension(r) == FileNameWithoutExtension(s)
  {
    assert forall i :: 0 <= i < |r| ==> r[i] !in NameBoundaries by {
      forall i | 0 <= i < |r| ensures r[i] !in NameBoundaries {
        assert FileName(r)[i] == r[i];
      }
    }
    StemOfFile(r, FileName(s), ext);
    StemOfDotlessName(s);
  }

  /** A file name without a dot is its own name without extension. */
  lemma StemOfDotlessName(s: string)
    requires '.' !in FileName(s)
    ensures FileNameWithoutExtension(s) == FileName(s)
  {
  }
}
