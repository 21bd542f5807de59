/** The pattern `(assembly )(?<assembly>.*?)(,| \(CLR)` that the launcher uses to find the
    assembly ngen announces in an output line.

    `Match` follows the regular-expression engine: it tries every start position from the left,
    and at a start where "assembly " occurs it extends the lazy group one character at a time
    (`.` does not match '\n') until one of the two terminators follows. `Announced` is the
    plain-text reading: the first "assembly ", then the nearest terminator after it. The two
    agree on every line without a line break. */
module ProgressPattern {
  import opened Wrappers

  const Keyword: string := "assembly "
  const ClrTerminator: string := " (CLR"

  /** `w` occurs in `s` at position `p`. */
  predicate OccursAt(s: string, p: nat, w: string) {
    p + |w| <= |s| && s[p..p + |w|] == w
  }

  /** One of the two terminators starts at position `k`. */
  predicate TerminatorAt(s: string, k: nat) {
    (k < |s| && s[k] == ',') || OccursAt(s, k, ClrTerminator)
  }

  /** The lazy group `.*?` started at `k0`, extended to `k`: the end of the shortest run of
      characters other than '\n' that a terminator follows. */
  function LazyEnd(s: string, k: nat): (e: Option<nat>)
    ensures e.Some? ==> k <= e.value < |s| && TerminatorAt(s, e.value)
    ensures e.Some? ==> forall j :: k <= j < e.value ==> s[j] != '\n' && !TerminatorAt(s, j)
    decreases |s| - k
  {
    if k >= |s| then None
    else if s[k] == ',' then Some(k)
    else if OccursAt(s, k, ClrTerminator) then Some(k)
    else if s[k] == '\n' then None
    else LazyEnd(s, k + 1)
  }

  /** The leftmost match starting at `p` or later; the result is the `assembly` group. */
  function MatchFrom(s: string, p: nat): (r: Option<string>)
    decreases |s| - p
  {
    if p + |Keyword| > |s| then None
    else if OccursAt(s, p, Keyword) && LazyEnd(s, p + |Keyword|).Some? then
      Some(s[p + |Keyword|..LazyEnd(s, p + |Keyword|).value])
    else MatchFrom(s, p + 1)
  }

  /** `AssemblyRegex.Match(line)`: the `assembly` group of a successful match. */
  function Match(s: string): Option<string> {
    MatchFrom(s, 0)
  }

  /** The first position at or after `p` where `w` occurs. */
  function IndexOf(s: string, w: string, p: nat): (r: Option<nat>)
    ensures r.Some? ==> p <= r.value && OccursAt(s, r.value, w)
    ensures r.Some? ==> forall q :: p <= q < r.value ==> !OccursAt(s, q, w)
    ensures r.None? ==> forall q :: p <= q ==> !OccursAt(s, q, w)
    decreases |s| - p
  {
    if p + |w| > |s| then None
    else if OccursAt(s, p, w) then Some(p)
    else IndexOf(s, w, p + 1)
  }

  /** The first position at or after `k` where a terminator starts. */
  function NearestTerminator(s: string, k: nat): (r: Option<nat>)
    ensures r.Some? ==> k <= r.value < |s| && TerminatorAt(s, r.value)
    ensures r.Some? ==> forall j :: k <= j < r.value ==> !TerminatorAt(s, j)
    ensures r.None? ==> forall j :: k <= j ==> !TerminatorAt(s, j)
    decreases |s| - k
  {
    if k >= |s| then None
    else if TerminatorAt(s, k) then Some(k)
    else NearestTerminator(s, k + 1)
  }

  /** The announced name: the text between the first "assembly " and the nearest terminator
      after it. */
  function Announced(s: string): Option<string> {
    match IndexOf(s, Keyword, 0)
    case None => None
    case Some(p) =>
      match NearestTerminator(s, p + |Keyword|)
      case None => None
      case Some(k) => Some(s[p + |Keyword|..k])
  }

  /** On a line without a break the lazy group ends at the nearest terminator. */
  lemma {:induction false} LazyEndIsNearestTerminator(s: string, k: nat)
    requires '\n' !in s
    ensures LazyEnd(s, k) == NearestTerminator(s, k)
    decreases |s| - k
  {
    if k < |s| {
      assert s[k] in s;
      LazyEndIsNearestTerminator(s, k + 1);
    }
  }

  /** Past the point where no terminator follows, no start position matches. */
  lemma {:induction false} NoMatchWithoutTerminator(s: string, p: nat, t: nat)
    requires '\n' !in s
    requires p + |Keyword| >= t
    requires NearestTerminator(s, t).None?
    ensures MatchFrom(s, p).None?
    decreases |s| - p
  {
    if p + |Keyword| <= |s| {
      LazyEndIsNearestTerminator(s, p + |Keyword|);
      assert NearestTerminator(s, p + |Keyword|).None?;
      NoMatchWithoutTerminator(s, p + 1, t);
    }
  }

  /** Before the first occurrence of the keyword, scanning on changes nothing. */
  lemma {:induction false} MatchFromFirstOccurrence(s: string, p: nat, f: nat)
    requires '\n' !in s
    requires p <= f && IndexOf(s, Keyword, 0) == Some(f)
    ensures MatchFrom(s, p) == Announced(s)
    decreases f - p
  {
    LazyEndIsNearestTerminator(s, p + |Keyword|);
    if p < f {
      assert !OccursAt(s, p, Keyword);
      MatchFromFirstOccurrence(s, p + 1, f);
    } else if NearestTerminator(s, f + |Keyword|).None? {
      NoMatchWithoutTerminator(s, f + 1, f + |Keyword|);
    }
  }

  /** The engine's match and the plain-text reading agree on lines without a line break. */
  lemma MatchIsAnnounced(s: string)
    requires '\n' !in s
    ensures Match(s) == Announced(s)
  {
    match IndexOf(s, Keyword, 0)
    case Some(f) =>
      MatchFromFirstOccurrence(s, 0, f);
    case None =>
      NoKeywordNoMatch(s, 0);
  }

  /** Without the keyword there is no match, line break or not. */
  lemma {:induction false} NoKeywordNoMatch(s: string, p: nat)
    requires forall q :: p <= q ==> !OccursAt(s, q, Keyword)
    ensures MatchFrom(s, p).None?
    decreases |s| - p
  {
    if p + |Keyword| <= |s| {
      NoKeywordNoMatch(s, p + 1);
    }
  }

  /** A match announces exactly the text between an occurrence of the keyword and a
      terminator, containing neither a terminator nor a line break. */
  lemma {:induction false} MatchShape(s: string, p: nat)
    requires MatchFrom(s, p).Some?
    ensures exists q, k :: p <= q && q + |Keyword| <= k < |s| && OccursAt(s, q, Keyword) && TerminatorAt(s, k) &&
              MatchFrom(s, p).value == s[q + |Keyword|..k] &&
              forall j :: q + |Keyword| <= j < k ==> s[j] != '\n' && !TerminatorAt(s, j)
    decreases |s| - p
  {
    if !(OccursAt(s, p, Keyword) && LazyEnd(s, p + |Keyword|).Some?) {
      MatchShape(s, p + 1);
    }
  }
}
