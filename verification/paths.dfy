/** A simplified model of the .NET `System.IO.Path` operations the resolver and the
    name comparer rely on. Both '\\' and '/' separate directories; '\\' is the one
    inserted by `Combine`. */
module Paths {
  import opened Wrappers

  const Separators: set<char> := {'\\', '/'}

  /** Characters after which `GetFileName` starts the file name: the separators and the
      volume separator ':'. */
  const NameBoundaries: set<char> := Separators + {':'}

  /** The separator `Combine` inserts between a folder and a name. */
  const DirectorySeparator: char := '\\'

  /** Index of the last character of `p` that belongs to `cs`, or -1 when there is none. */
  function LastIndexOfAny(p: string, cs: set<char>): (k: int)
    ensures -1 <= k < |p|
    ensures k >= 0 ==> p[k] in cs
    ensures forall j :: k < j < |p| ==> p[j] !in cs
    decreases |p|
  {
    if |p| == 0 then -1
    else if p[|p| - 1] in cs then |p| - 1
    else LastIndexOfAny(p[..|p| - 1], cs)
  }

  /** `Path.GetFileName`: the part of `p` after its last separator or volume separator. */
  function FileName(p: string): (r: string)
    ensures |r| <= |p| && p[|p| - |r|..] == r
    ensures forall i :: 0 <= i < |r| ==> r[i] !in NameBoundaries
    ensures |r| < |p| ==> p[|p| - |r| - 1] in NameBoundaries
  {
    p[LastIndexOfAny(p, NameBoundaries) + 1..]
  }

  /** `Path.GetFileNameWithoutExtension`: the file name cut before its last '.'. */
  function FileNameWithoutExtension(p: string): (r: string)
    ensures |r| <= |FileName(p)| && FileName(p)[..|r|] == r
    ensures |r| == |FileName(p)| <==> '.' !in FileName(p)
    ensures |r| < |FileName(p)| ==> FileName(p)[|r|] == '.'
    ensures forall j :: |r| < j < |FileName(p)| ==> FileName(p)[j] != '.'
  {
    var name := FileName(p);
    var k := LastIndexOfAny(name, {'.'});
    if k < 0 then name else name[..k]
  }

  /** Length of the root of `p`: a leading separator, or a drive letter with or without the
      separator that follows it. */
  function RootLength(p: string): (n: nat)
    ensures n <= |p| && n <= 3
  {
    if |p| >= 1 && p[0] in Separators then 1
    else if |p| >= 3 && p[1] == ':' && p[2] in Separators then 3
    else if |p| >= 2 && p[1] == ':' then 2
    else 0
  }

  /** The name without extension depends on the file name alone. */
  lemma StemDependsOnFileName(p: string, q: string)
    requires FileName(p) == FileName(q)
    ensures FileNameWithoutExtension(p) == FileNameWithoutExtension(q)
  {
  }

  /** `Path.GetDirectoryName`: the part of `p` before its last separator, never shorter than
      the root; `None` when `p` is nothing but a root. */
  function DirectoryName(p: string): (r: Option<string>)
    ensures r.None? <==> |p| == RootLength(p)
    ensures r.Some? ==> RootLength(p) <= |r.value| < |p| && p[..|r.value|] == r.value
    ensures r.Some? ==> forall j :: |r.value| < j < |p| ==> p[j] !in Separators
    ensures r.Some? && |r.value| > RootLength(p) ==> p[|r.value|] in Separators
  {
    var root := RootLength(p);
    if |p| == root then None
    else
      var k := LastIndexOfAny(p, Separators);
      if k < root then Some(p[..root]) else Some(p[..k])
  }

  /** `Path.IsPathRooted`: starts with a separator or carries a drive letter. */
  predicate IsRooted(p: string) {
    (|p| >= 1 && p[0] in Separators) || (|p| >= 2 && p[1] == ':')
  }

  /** `Path.Combine(folder, name)`. */
  function Combine(folder: string, name: string): (r: string)
    ensures |name| > 0 ==> |name| <= |r| && r[|r| - |name|..] == name
    ensures |name| > 0 && !IsRooted(name) && |folder| > 0 ==> |folder| + |name| <= |r| && r[..|folder|] == folder
  {
    if |name| == 0 then folder
    else if |folder| == 0 then name
    else if IsRooted(name) then name
    else if folder[|folder| - 1] in Separators || folder[|folder| - 1] == ':' then folder + name
    else folder + [DirectorySeparator] + name
  }

  /** The file name of a combined path is the name that was combined in, whatever the folder,
      as long as the name is a plain, non-empty file name; a suffix without boundaries stays. */
  lemma FileNameOfCombine(folder: string, name: string, ext: string)
    requires |name| > 0 && !IsRooted(name)
    requires forall i :: 0 <= i < |name| ==> name[i] !in NameBoundaries
    requires forall i :: 0 <= i < |ext| ==> ext[i] !in NameBoundaries
    ensures FileName(Combine(folder, name) + ext) == name + ext
  {
    var c := Combine(folder, name);
    var p := c + ext;
    var s := name + ext;
    assert p[|p| - |s|..] == s;
    if |c| > |name| {
      // the folder part ends in a boundary character: its own or the inserted separator
      if folder[|folder| - 1] in Separators || folder[|folder| - 1] == ':' {
        assert c == folder + name;
      } else {
        assert c == folder + [DirectorySeparator] + name;
      }
      assert c[|c| - |name| - 1] in NameBoundaries;
      assert p[|p| - |s| - 1] in NameBoundaries;
    }
  }

  /** Behind an empty prefix or one that ends in a boundary, a name without boundaries is the
      file name. */
  lemma FileNameAfterBoundary(dir: string, file: string)
    requires dir == [] || dir[|dir| - 1] in NameBoundaries
    requires forall i :: 0 <= i < |file| ==> file[i] !in NameBoundaries
    ensures FileName(dir + file) == file
  {
    var p := dir + file;
    assert p[|p| - |file|..] == file;
    assert |p| > |file| ==> p[|p| - |file| - 1] == dir[|dir| - 1];
  }

  /** A file name `name.ext` whose extension has no dot loses exactly that extension. */
  lemma StemOfLastExtension(p: string, name: string, ext: string)
    requires FileName(p) == name + "." + ext
    requires '.' !in ext
    ensures FileNameWithoutExtension(p) == name
  {
    LastDotOf(name, ext);
    StemAtLastDot(p, |name|);
  }

  /** In `name.ext` with a dot-free extension, the dot after `name` is the last one. */
  lemma LastDotOf(name: string, ext: string)
    requires '.' !in ext
    ensures var file := name + "." + ext;
      file[|name|] == '.' && file[..|name|] == name && forall j :: |name| < j < |file| ==> file[j] != '.'
  {
    var file := name + "." + ext;
    assert forall j :: |name| < j < |file| ==> file[j] == ext[j - |name| - 1];
  }

  /** The name without extension ends at the last dot of the file name. */
  lemma StemAtLastDot(p: string, i: nat)
    requires i < |FileName(p)| && FileName(p)[i] == '.'
    requires forall j :: i < j < |FileName(p)| ==> FileName(p)[j] != '.'
    ensures FileNameWithoutExtension(p) == FileName(p)[..i]
  {
    var file := FileName(p);
    var r := FileNameWithoutExtension(p);
    assert '.' in file by { assert file[i] == '.'; }
    assert |r| < |file| && file[|r|] == '.';
    assert |r| == i;
  }

  /** Joining two names without boundaries at a dot gives a name without boundaries. */
  lemma DottedNameIsPlain(name: string, ext: string)
    requires forall i :: 0 <= i < |name| ==> name[i] !in NameBoundaries
    requires forall i :: 0 <= i < |ext| ==> ext[i] !in NameBoundaries
    ensures forall i :: 0 <= i < |name + "." + ext| ==> (name + "." + ext)[i] !in NameBoundaries
  {
    var file := name + "." + ext;
    forall i | 0 <= i < |file| ensures file[i] !in NameBoundaries {
      if i < |name| {
        assert file[i] == name[i];
      } else if i > |name| {
        assert file[i] == ext[i - |name| - 1];
      } else {
        assert file[i] == '.';
      }
    }
  }

  /** A name without boundaries and without dots is its own file name without extension. */
  lemma StemOfPlainName(name: string)
    requires '.' !in name
    requires forall i :: 0 <= i < |name| ==> name[i] !in NameBoundaries
    ensures FileNameWithoutExtension(name) == name
  {
    FileNameAfterBoundary([], name);
    assert [] + name == name;
  }

  /** The stem of a plain file name `name.ext` whose extension has no dot. */
  lemma StemOfFile(file: string, name: string, ext: string)
    requires file == name + "." + ext && '.' !in ext
    requires forall i :: 0 <= i < |file| ==> file[i] !in NameBoundaries
    ensures FileNameWithoutExtension(file) == name
  {
    assert file == [] + file;
    FileNameAfterBoundary([], file);
    StemOfLastExtension(file, name, ext);
  }
}
