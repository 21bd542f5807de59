/** The equality used to recognise an announced assembly in the expected list: both names are
    reduced to their file name without extension, then compared ordinally ignoring case. */
module AssemblyNameComparer {
  import opened Wrappers
  import opened Paths
  import opened OrdinalStrings

  /** `Path.GetFileNameWithoutExtension`, which maps null to null. */
  function StemOf(name: Option<string>): Option<string> {
    match name
    case None => None
    case Some(n) => Some(FileNameWithoutExtension(n))
  }

  /** `AssemblyNameComparer.Equals(name1, name2)`. */
  function Equals(name1: Option<string>, name2: Option<string>): (r: bool)
    ensures name1.None? && name2.None? ==> r
    ensures name1.None? != name2.None? ==> !r
    ensures name1.Some? && name2.Some? ==>
              (r <==> Fold(FileNameWithoutExtension(name1.value)) == Fold(FileNameWithoutExtension(name2.value)))
  {
    var stem1 := StemOf(name1);
    var stem2 := StemOf(name2);
    if stem1.None? && stem2.None? then true
    else if stem1.None? || stem2.None? then false
    else
      EqualsIgnoreCaseIsFoldEquality(stem1.value, stem2.value);
      EqualsIgnoreCase(stem1.value, stem2.value)
  }

  /** The comparer is an equivalence relation: it compares normal forms for equality. */
  lemma EqualsIsEquivalence(a: Option<string>, b: Option<string>, c: Option<string>)
    ensures Equals(a, a)
    ensures Equals(a, b) == Equals(b, a)
    ensures Equals(a, b) && Equals(b, c) ==> Equals(a, c)
  {
  }

  /** Only the file name without extension of each side matters: the directory and the last
      extension can be changed freely. */
  lemma EqualsDependsOnlyOnStems(a: string, a': string, b: Option<string>)
    requires FileNameWithoutExtension(a) == FileNameWithoutExtension(a')
    ensures Equals(Some(a), b) == Equals(Some(a'), b)
  {
  }

  /** A plain name (no directory, no '.') compares equal to any spelling of it that differs in
      case, carries a directory and carries one extension. */
  lemma {:induction false} EqualsIgnoresDirectoryExtensionAndCase(dir: string, name: string, ext: string, other: string)
    requires dir == [] || dir[|dir| - 1] in NameBoundaries
    requires '.' !in name && '.' !in ext && '.' !in other
    requires forall i :: 0 <= i < |name| ==> name[i] !in NameBoundaries
    requires forall i :: 0 <= i < |ext| ==> ext[i] !in NameBoundaries
    requires forall i :: 0 <= i < |other| ==> other[i] !in NameBoundaries
    requires Fold(name) == Fold(other)
    ensures Equals(Some(dir + name + "." + ext), Some(other))
  {
    var file := name + "." + ext;
    var p := dir + file;
    assert dir + name + "." + ext == p;
    DottedNameIsPlain(name, ext);
    FileNameAfterBoundary(dir, file);
    StemOfLastExtension(p, name, ext);
    StemOfPlainName(other);
    EqualStems(p, other);
  }

  /** Names whose stems fold alike are equal. */
  lemma EqualStems(a: string, b: string)
    requires Fold(FileNameWithoutExtension(a)) == Fold(FileNameWithoutExtension(b))
    ensures Equals(Some(a), Some(b))
  {
  }
}
