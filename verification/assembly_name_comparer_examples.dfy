/** The comparer on the names its unit tests use. */
module AssemblyNameComparerExamples {
  import opened Wrappers
  import opened Paths
  import opened OrdinalStrings
  import opened AssemblyNameComparer

  /** "Assembly1.dll" and "assembly1" are the same assembly. */
  lemma ExtensionAndCaseAreIgnored()
    ensures Equals(Some("Assembly1.dll"), Some("assembly1"))
  {
    FileMatchesPlainName("Assembly1.dll", "Assembly1", "dll", "assembly1");
  }

  /** A plain file name with an extension equals a plain name without dots when the two names
      fold alike. */
  lemma FileMatchesPlainName(a: string, nameA: string, extA: string, b: string)
    requires a == nameA + "." + extA && '.' !in extA
    requires forall i :: 0 <= i < |a| ==> a[i] !in NameBoundaries
    requires '.' !in b
    requires forall i :: 0 <= i < |b| ==> b[i] !in NameBoundaries
    requires EqualsIgnoreCase(nameA, b)
    ensures Equals(Some(a), Some(b))
  {
    StemOfFile(a, nameA, extA);
    StemOfPlainName(b);
    EqualsIgnoreCaseIsFoldEquality(nameA, b);
    EqualStems(a, b);
  }

  /** Two plain file names with an extension each are equal when their names fold alike. */
  lemma SameFiles(a: string, nameA: string, extA: string, b: string, nameB: string, extB: string)
    requires a == nameA + "." + extA && '.' !in extA
    requires b == nameB + "." + extB && '.' !in extB
    requires forall i :: 0 <= i < |a| ==> a[i] !in NameBoundaries
    requires forall i :: 0 <= i < |b| ==> b[i] !in NameBoundaries
    requires EqualsIgnoreCase(nameA, nameB)
    ensures Equals(Some(a), Some(b))
  {
    StemOfFile(a, nameA, extA);
    StemOfFile(b, nameB, extB);
    EqualsIgnoreCaseIsFoldEquality(nameA, nameB);
  }

  /** Two plain file names with an extension each differ when their names fold apart. */
  lemma DifferentFiles(a: string, nameA: string, extA: string, b: string, nameB: string, extB: string)
    requires a == nameA + "." + extA && '.' !in extA
    requires b == nameB + "." + extB && '.' !in extB
    requires forall i :: 0 <= i < |a| ==> a[i] !in NameBoundaries
    requires forall i :: 0 <= i < |b| ==> b[i] !in NameBoundaries
    requires !EqualsIgnoreCase(nameA, nameB)
    ensures !Equals(Some(a), Some(b))
  {
    StemOfFile(a, nameA, extA);
    StemOfFile(b, nameB, extB);
    EqualsIgnoreCaseIsFoldEquality(nameA, nameB);
  }

  /** Two plain names without dots differ when they fold apart. */
  lemma DifferentPlainNames(a: string, b: string)
    requires '.' !in a && '.' !in b
    requires forall i :: 0 <= i < |a| ==> a[i] !in NameBoundaries
    requires forall i :: 0 <= i < |b| ==> b[i] !in NameBoundaries
    requires !EqualsIgnoreCase(a, b)
    ensures !Equals(Some(a), Some(b))
  {
    StemOfPlainName(a);
    StemOfPlainName(b);
    assert StemOf(Some(a)) == Some(a) && StemOf(Some(b)) == Some(b);
  }

  /** "assembly1.exe" and "ASSEMBLY1.EXE" differ only in case. */
  lemma CaseIsIgnored()
    ensures Equals(Some("assembly1.exe"), Some("ASSEMBLY1.EXE"))
  {
    SameFiles("assembly1.exe", "assembly1", "exe", "ASSEMBLY1.EXE", "ASSEMBLY1", "EXE");
  }

  /** "Assembly1" and "assembly2" are different assemblies. */
  lemma DifferentNamesDiffer()
    ensures !Equals(Some("Assembly1"), Some("assembly2"))
  {
    assert ToUpper("Assembly1"[8]) != ToUpper("assembly2"[8]);
    DifferentPlainNames("Assembly1", "assembly2");
  }

  /** "X.exe" and "X.dll" are the same assembly: only the stem is compared. */
  lemma ExtensionsAreNotCompared()
    ensures Equals(Some("X.exe"), Some("X.dll"))
  {
    SameFiles("X.exe", "X", "exe", "X.dll", "X", "dll");
  }

  /** Only the last extension is dropped: the stems of "Ns.A1.dll" and "Ns.a1" are "Ns.A1" and
      "Ns", so a dotted namespace name without its extension does not match. */
  lemma OnlyLastExtensionIsDropped()
    ensures !Equals(Some("Ns.A1.dll"), Some("Ns.a1"))
  {
    DifferentFiles("Ns.A1.dll", "Ns.A1", "dll", "Ns.a1", "Ns", "a1");
  }
}
