/**
 * The fixed pattern `charset=(\S+)` with leftmost-match semantics: the
 * first position where `charset=` is followed by a non-whitespace
 * character, and the longest run of non-whitespace characters there.
 */
module CharsetPattern {
  import opened Wrappers
  import opened Text

  const CharsetKey: string := "charset="

  /** A match of the pattern: where `charset=` starts, and the captured group. */
  datatype CharsetMatch = CharsetMatch(start: nat, group: string)

  /** The pattern matches with its match starting at `p`. */
  predicate MatchesAt(line: string, p: nat) {
    p + |CharsetKey| < |line| && line[p..p + |CharsetKey|] == CharsetKey && !IsSpace(line[p + |CharsetKey|])
  }

  /** Length of the run of non-whitespace characters starting at `from` (greedy `\S+`). */
  function NonSpaceRun(line: string, from: nat): (n: nat)
    requires from <= |line|
    ensures from + n <= |line|
    ensures forall j :: from <= j < from + n ==> !IsSpace(line[j])
    ensures from + n == |line| || IsSpace(line[from + n])
    decreases |line| - from
  {
    if from == |line| || IsSpace(line[from]) then 0 else 1 + NonSpaceRun(line, from + 1)
  }

  /**
   * The group of a match starting at `p`: the greedy `\S+` after `charset=`,
   * non-empty, free of whitespace, and ending at whitespace or end of line.
   */
  function GroupAt(line: string, p: nat): (g: string)
    requires MatchesAt(line, p)
    ensures var from := p + |CharsetKey|;
      && |g| > 0
      && from + |g| <= |line|
      && line[from..from + |g|] == g
      && (forall k :: 0 <= k < |g| ==> !IsSpace(g[k]))
      && (from + |g| == |line| || IsSpace(line[from + |g|]))
  {
    var from := p + |CharsetKey|;
    var n := NonSpaceRun(line, from);
    var g := line[from..from + n];
    assert forall k :: 0 <= k < n ==> g[k] == line[from + k];
    g
  }

  /** The search of `Regex.find` from position `p` onwards. */
  function FindFrom(line: string, p: nat): (r: Option<CharsetMatch>)
    requires p <= |line|
    ensures r.Some? ==> p <= r.value.start && MatchesAt(line, r.value.start) && r.value.group == GroupAt(line, r.value.start)
    ensures forall q: nat :: p <= q && (r.None? || q < r.value.start) ==> !MatchesAt(line, q)
    decreases |line| - p
  {
    if p == |line| then None
    else if MatchesAt(line, p) then Some(CharsetMatch(p, GroupAt(line, p)))
    else FindFrom(line, p + 1)
  }

  /**
   * `CHARSET.find(line)`: None exactly when the pattern matches nowhere;
   * otherwise the group is a non-empty run of non-whitespace characters,
   * immediately preceded by the leftmost `charset=` that is followed by a
   * non-whitespace character, and ending at whitespace or at end of line.
   */
  function FindCharset(line: string): (r: Option<CharsetMatch>)
    ensures r.None? <==> forall q: nat :: !MatchesAt(line, q)
    ensures r.Some? ==>
      var start, group := r.value.start, r.value.group;
      var end := start + |CharsetKey| + |group|;
      && |group| > 0
      && end <= |line|
      && line[start..start + |CharsetKey|] == CharsetKey
      && line[start + |CharsetKey|..end] == group
      && (forall k :: 0 <= k < |group| ==> !IsSpace(group[k]))
      && (end == |line| || IsSpace(line[end]))
      && (forall q: nat :: q < start ==> !MatchesAt(line, q))
  {
    FindFrom(line, 0)
  }
}
