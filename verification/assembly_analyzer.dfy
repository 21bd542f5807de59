/** `AssemblyAnalyzer`: a second copy of the local-dependency resolver. Its text is the same as
    `AssemblyHelper`'s; here it is written as the loop over the references that the `foreach`
    performs, accumulating what each existing candidate yields, and proved to compute exactly
    what the recursive model in `AssemblyHelper` computes. */
module AssemblyAnalyzer {
  import opened Wrappers
  import opened Linq
  import opened DependencyGraph
  import AssemblyHelper

  /** `acc` followed by what `r` yields; a failure stays a failure. */
  function Prepend(acc: seq<string>, r: Result<seq<string>, string>): (p: Result<seq<string>, string>)
    ensures p.Success? <==> r.Success?
    ensures p.Success? ==> p.value == acc + r.value
    ensures p.Failure? ==> p.error == r.error
  {
    match r
    case Success(v) => Success(acc + v)
    case Failure(e) => Failure(e)
  }

  lemma PrependNothing(r: Result<seq<string>, string>)
    ensures Prepend([], r) == r
  {
    if r.Success? {
      assert [] + r.value == r.value;
    }
  }

  lemma PrependTwice(a: seq<string>, b: seq<string>, r: Result<seq<string>, string>)
    ensures Prepend(a, Prepend(b, r)) == Prepend(a + b, r)
  {
    if r.Success? {
      assert a + (b + r.value) == (a + b) + r.value;
    }
  }

  /** `FindReferencedAssemblies(file, appBase)`, with the search folder fixed by `probe`. */
  method FindReferencedAssemblies(d: Disk, file: string, probe: Probe, ghost rank: string -> nat) returns (r: Result<seq<string>, string>)
    requires Ranked(d, probe, rank)
    ensures r == AssemblyHelper.FindReferencedAssemblies(d, file, probe, rank)
    decreases rank(file)
  {
    if file !in d.refs {
      return Failure(file);
    }
    var names := d.refs[file];
    var found: seq<string> := [];
    PrependNothing(AssemblyHelper.FindFrom(d, file, probe, rank, 0));
    for i := 0 to |names|
      invariant AssemblyHelper.FindFrom(d, file, probe, rank, 0) == Prepend(found, AssemblyHelper.FindFrom(d, file, probe, rank, i))
    {
      var c := probe(file, names[i]);
      if c in d.files {
        assert rank(c) < rank(file);
        var sub := FindReferencedAssemblies(d, c, probe, rank);
        if sub.Failure? {
          return Failure(sub.error);
        }
        assert AssemblyHelper.FindFrom(d, file, probe, rank, i) ==
               Prepend([c] + sub.value, AssemblyHelper.FindFrom(d, file, probe, rank, i + 1));
        PrependTwice(found, [c] + sub.value, AssemblyHelper.FindFrom(d, file, probe, rank, i + 1));
        assert found + ([c] + sub.value) == found + [c] + sub.value;
        found := found + [c] + sub.value;
      }
    }
    assert found + [] == found;
    return Success(found);
  }

  /** `GetLocalReferences(file, appBase)`. */
  method GetLocalReferences(d: Disk, file: string, appBase: Option<string>, ghost rank: string -> nat) returns (r: Result<seq<string>, string>)
    requires Ranked(d, ProbeFor(appBase), rank)
    ensures r == AssemblyHelper.GetLocalReferences(d, file, appBase, rank)
  {
    var found := FindReferencedAssemblies(d, file, ProbeFor(appBase), rank);
    match found
    case Failure(e) =>
      r := Failure(e);
    case Success(v) =>
      r := Success(OrderBy(Distinct(v)));
  }
}
