/** The world the dependency resolver observes, and reachability through local references.

    The resolver reads assembly metadata and asks whether files exist; both are modelled as
    data. A reference `name` of the assembly at `file` resolves to the candidate path
    `Combine(folder, name) + ".dll"`, where `folder` is the application base when one is given
    and otherwise the directory of `file`. */
module DependencyGraph {
  import opened Wrappers
  import opened Paths

  /** `refs[p]` lists the short names of the assemblies referenced by the assembly at `p`, in
      metadata order; a path outside `refs` is one that cannot be loaded as an assembly.
      `files` holds the paths for which `File.Exists` is true. */
  datatype Disk = Disk(refs: map<string, seq<string>>, files: set<string>)

  /** The folder searched for the references of `file`: `appBase ?? GetDirectoryName(file) ?? ""`. */
  function SearchFolder(file: string, appBase: Option<string>): (r: string)
    ensures appBase.Some? ==> r == appBase.value
    ensures appBase.None? ==> |r| <= |file| && file[..|r|] == r
    ensures appBase.None? ==> r == (if DirectoryName(file).Some? then DirectoryName(file).value else "")
  {
    match appBase
    case Some(folder) => folder
    case None => DirectoryName(file).GetOr("")
  }

  /** The path probed for the reference `name` of `file`. */
  function Candidate(file: string, appBase: Option<string>, name: string): (r: string)
    ensures |r| >= 4 && r[|r| - 4..] == ".dll"
  {
    Combine(SearchFolder(file, appBase), name) + ".dll"
  }

  /** A plain reference name is probed inside the search folder: the candidate's directory
      is the folder, so without an application base every candidate is a sibling of `file`. */
  lemma CandidateIsInSearchFolder(file: string, appBase: Option<string>, name: string)
    requires |name| > 0 && forall i :: 0 <= i < |name| ==> name[i] !in NameBoundaries
    requires var f := SearchFolder(file, appBase); |f| > 0 && f[|f| - 1] !in NameBoundaries
    ensures DirectoryName(Candidate(file, appBase, name)) == Some(SearchFolder(file, appBase))
  {
    var f := SearchFolder(file, appBase);
    CombinePlain(f, name);
    DllHasNoSeparator(name);
    DirectoryOfJoin(f, name + ".dll");
  }

  /** A folder that does not end in a boundary is joined to a plain name by one separator. */
  lemma CombinePlain(f: string, name: string)
    requires |name| > 0 && forall i :: 0 <= i < |name| ==> name[i] !in NameBoundaries
    requires |f| > 0 && f[|f| - 1] !in NameBoundaries
    ensures Combine(f, name) + ".dll" == f + [DirectorySeparator] + (name + ".dll")
  {
    assert !IsRooted(name) by { assert name[0] !in NameBoundaries; }
    assert Combine(f, name) == f + [DirectorySeparator] + name;
  }

  /** A plain name with `.dll` appended has no separator. */
  lemma DllHasNoSeparator(name: string)
    requires forall i :: 0 <= i < |name| ==> name[i] !in NameBoundaries
    ensures forall j :: 0 <= j < |name + ".dll"| ==> (name + ".dll")[j] !in Separators
  {
    var tail := name + ".dll";
    forall j | 0 <= j < |tail| ensures tail[j] !in Separators {
      if j < |name| { assert tail[j] == name[j]; }
    }
  }

  /** Joining a folder that does not end in a boundary with a name free of separators gives a
      path whose directory is that folder. */
  lemma DirectoryOfJoin(f: string, tail: string)
    requires |f| > 0 && f[|f| - 1] !in NameBoundaries
    requires forall j :: 0 <= j < |tail| ==> tail[j] !in Separators
    ensures DirectoryName(f + [DirectorySeparator] + tail) == Some(f)
  {
    var p := f + [DirectorySeparator] + tail;
    assert p[|f|] in Separators;
    assert p[..|f|] == f;
    assert RootLength(p) <= |f| by {
      if |f| == 1 { assert p[1] == DirectorySeparator; }
      else if |f| == 2 { assert p[1] == f[1]; }
    }
    assert forall j :: |f| < j < |p| ==> p[j] == tail[j - |f| - 1];
  }

  /** Where the resolver looks for a referenced assembly: the path probed for the reference
      `name` of the assembly at `file`. */
  type Probe = (string, string) -> string

  /** The probe of `FindReferencedAssemblies(file, appBase)`; the same `appBase` is used at every
      level of the recursion. */
  function ProbeFor(appBase: Option<string>): (probe: Probe)
    ensures forall file, name :: probe(file, name) == Candidate(file, appBase, name)
  {
    (file, name) => Candidate(file, appBase, name)
  }

  /** `b` is a local reference of `a`: `a` loads, and one of its references resolves to the
      existing file `b`. */
  ghost predicate Edge(d: Disk, probe: Probe, a: string, b: string) {
    a in d.refs && b in d.files && exists n :: n in d.refs[a] && b == probe(a, n)
  }

  /** `c` is a path of local references. */
  ghost predicate IsChain(d: Disk, probe: Probe, c: seq<string>) {
    |c| >= 1 && forall i :: 0 <= i < |c| - 1 ==> Edge(d, probe, c[i], c[i + 1])
  }

  /** `b` is reached from `a` through one or more local references. */
  ghost predicate Reachable(d: Disk, probe: Probe, a: string, b: string) {
    exists c :: IsChain(d, probe, c) && |c| >= 2 && c[0] == a && c[|c| - 1] == b
  }

  /** `file` loads, and so does every file reachable from it. */
  ghost predicate LoadsAll(d: Disk, probe: Probe, file: string) {
    file in d.refs && forall x :: Reachable(d, probe, file, x) ==> x in d.refs
  }

  /** `rank` strictly decreases along every local reference. Such a rank exists exactly when
      the local references form no cycle, which the resolver needs in order to terminate: it
      keeps no record of the files it has already visited. */
  ghost predicate Ranked(d: Disk, probe: Probe, rank: string -> nat) {
    forall a, n :: a in d.refs && n in d.refs[a] && probe(a, n) in d.files ==>
      rank(probe(a, n)) < rank(a)
  }

  lemma EdgeIsReachable(d: Disk, probe: Probe, a: string, b: string)
    requires Edge(d, probe, a, b)
    ensures Reachable(d, probe, a, b)
  {
    assert IsChain(d, probe, [a, b]);
  }

  /** A local reference followed by a path is a path. */
  lemma ReachableThroughEdge(d: Disk, probe: Probe, a: string, b: string, x: string)
    requires Edge(d, probe, a, b) && Reachable(d, probe, b, x)
    ensures Reachable(d, probe, a, x)
  {
    var c :| IsChain(d, probe, c) && |c| >= 2 && c[0] == b && c[|c| - 1] == x;
    var c' := [a] + c;
    forall i | 0 <= i < |c'| - 1
      ensures Edge(d, probe, c'[i], c'[i + 1])
    {
      if i > 0 {
        assert c'[i] == c[i - 1] && c'[i + 1] == c[i];
      }
    }
    assert IsChain(d, probe, c');
  }

  /** Along any path of local references the rank strictly decreases. */
  lemma {:induction false} ChainDescends(d: Disk, probe: Probe, rank: string -> nat, c: seq<string>)
    requires Ranked(d, probe, rank)
    requires IsChain(d, probe, c) && |c| >= 2
    ensures rank(c[|c| - 1]) < rank(c[0])
    decreases |c|
  {
    assert Edge(d, probe, c[0], c[1]);
    var n :| n in d.refs[c[0]] && c[1] == probe(c[0], n);
    assert rank(c[1]) < rank(c[0]);
    if |c| > 2 {
      forall i | 0 <= i < |c[1..]| - 1
        ensures Edge(d, probe, c[1..][i], c[1..][i + 1])
      {
        assert c[1..][i] == c[i + 1] && c[1..][i + 1] == c[i + 2];
      }
      assert IsChain(d, probe, c[1..]);
      ChainDescends(d, probe, rank, c[1..]);
    }
  }

  /** With a rank, no file reaches itself: the reference graph is acyclic. */
  lemma NoFileReachesItself(d: Disk, probe: Probe, rank: string -> nat, a: string)
    requires Ranked(d, probe, rank)
    ensures !Reachable(d, probe, a, a)
  {
    if Reachable(d, probe, a, a) {
      var c :| IsChain(d, probe, c) && |c| >= 2 && c[0] == a && c[|c| - 1] == a;
      ChainDescends(d, probe, rank, c);
    }
  }
}
