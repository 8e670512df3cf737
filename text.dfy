/**
 * The Kotlin string operations the converter relies on: `startsWith`,
 * `indexOf`, `substringAfter` and `replace`, all exact and case-sensitive.
 */
module Text {
  import opened Wrappers

  /** `s.startsWith(prefix)`: character-exact, no case folding. */
  predicate StartsWith(s: string, prefix: string) {
    |prefix| <= |s| && s[..|prefix|] == prefix
  }

  /** `startsWith` compares character by character: every position of the prefix holds the same character in `s`. */
  lemma StartsWithCharwise(s: string, prefix: string)
    ensures StartsWith(s, prefix) <==> |prefix| <= |s| && forall k :: 0 <= k < |prefix| ==> s[k] == prefix[k]
  {
    if |prefix| <= |s| && forall k :: 0 <= k < |prefix| ==> s[k] == prefix[k] {
      assert s[..|prefix|] == prefix;
    }
  }

  /** Java's `\s` class without Unicode flags: space, tab, newline, vertical tab, form feed, carriage return. */
  predicate IsSpace(c: char) {
    c == ' ' || c == '\t' || c == '\n' || c == 11 as char || c == 12 as char || c == '\r'
  }

  /** `t` occurs in `s` starting at position `i`. */
  predicate OccursAt(s: string, t: string, i: nat) {
    i + |t| <= |s| && s[i..i + |t|] == t
  }

  /** `t` occurs in `s` at position `i` and at no earlier position. */
  predicate FirstOccursAt(s: string, t: string, i: nat) {
    OccursAt(s, t, i) && forall j: nat :: j < i ==> !OccursAt(s, t, j)
  }

  /** `s.indexOf(t)`: the leftmost position at which `t` occurs in `s`, or None. */
  function IndexOf(s: string, t: string): (r: Option<nat>)
    ensures r.Some? ==> FirstOccursAt(s, t, r.value)
    ensures r.None? ==> forall j: nat :: !OccursAt(s, t, j)
    decreases |s|
  {
    if OccursAt(s, t, 0) then Some(0)
    else if |s| == 0 then None
    else
      match IndexOf(s[1..], t)
      case None =>
        assert forall j: nat :: !OccursAt(s, t, j) by {
          forall j: nat | j > 0 ensures !OccursAt(s, t, j) {
            OccursShift(s, t, j - 1);
          }
        }
        None
      case Some(k) =>
        assert FirstOccursAt(s, t, k + 1) by {
          OccursShift(s, t, k);
          forall j: nat | 0 < j < k + 1 ensures !OccursAt(s, t, j) {
            OccursShift(s, t, j - 1);
          }
        }
        Some(k + 1)
  }

  /** An occurrence in the tail of `s` is an occurrence in `s` one position later. */
  lemma OccursShift(s: string, t: string, j: nat)
    requires |s| > 0
    ensures OccursAt(s[1..], t, j) <==> OccursAt(s, t, j + 1)
  {
  }

  /** `indexOf` finds the first occurrence, and finds it no later than any occurrence. */
  lemma IndexOfFindsFirst(s: string, t: string, i: nat)
    requires OccursAt(s, t, i)
    ensures IndexOf(s, t).Some? && IndexOf(s, t).value <= i
    ensures FirstOccursAt(s, t, i) ==> IndexOf(s, t) == Some(i)
  {
  }

  /** `s.substringAfter(delimiter)`: what follows the first occurrence of `delimiter`, or all of `s` when it does not occur. */
  function SubstringAfter(s: string, delimiter: string): (r: string)
    ensures StartsWith(s, delimiter) ==> r == s[|delimiter|..]
    ensures IndexOf(s, delimiter).None? ==> r == s
  {
    assert StartsWith(s, delimiter) ==> OccursAt(s, delimiter, 0);
    match IndexOf(s, delimiter)
    case None => s
    case Some(i) => s[i + |delimiter|..]
  }

  /**
   * `s.replace(target, replacement)`: every occurrence of `target`, found
   * left to right and without overlap, is replaced.
   */
  function ReplaceAll(s: string, target: string, replacement: string): (r: string)
    requires |target| > 0
    ensures (forall j: nat :: !OccursAt(s, target, j)) ==> r == s
    ensures |replacement| == |target| ==> |r| == |s|
    decreases |s|
  {
    match IndexOf(s, target)
    case None => s
    case Some(i) => s[..i] + replacement + ReplaceAll(s[i + |target|..], target, replacement)
  }

  /** The pieces `ps` with `sep` between each two consecutive ones. */
  function Join(ps: seq<string>, sep: string): string
    requires |ps| > 0
  {
    if |ps| == 1 then ps[0] else ps[0] + sep + Join(ps[1..], sep)
  }

  /**
   * `ps` cuts `s` at the occurrences of `t` that a left-to-right scan
   * without overlap finds: `s` is the pieces joined by `t`, each piece but
   * the last is followed by the first occurrence of `t` after it, and the
   * last piece holds no occurrence.
   */
  predicate IsSplit(s: string, t: string, ps: seq<string>) {
    |ps| > 0 && s == Join(ps, t)
    && (forall k :: 0 <= k < |ps| - 1 ==> FirstOccursAt(ps[k] + t, t, |ps[k]|))
    && IndexOf(ps[|ps| - 1], t).None?
  }

  /** Occurrences that end within the first `m` characters are the same in `s` and in `s[..m]`. */
  lemma OccursInPrefix(s: string, t: string, m: nat, j: nat)
    requires j + |t| <= m <= |s|
    ensures OccursAt(s[..m], t, j) <==> OccursAt(s, t, j)
  {
    assert s[..m][j..j + |t|] == s[j..j + |t|];
  }

  /** Whatever follows `p + t`, the occurrence at `|p|` is first in the whole string exactly when it is first in `p + t`. */
  lemma PrefixFirst(p: string, t: string, tail: string)
    ensures FirstOccursAt(p + t + tail, t, |p|) <==> FirstOccursAt(p + t, t, |p|)
  {
    var s := p + t + tail;
    assert s[..|p| + |t|] == p + t;
    forall j: nat | j <= |p| ensures OccursAt(p + t, t, j) <==> OccursAt(s, t, j) {
      OccursInPrefix(s, t, |p| + |t|, j);
    }
  }

  /** A split with more than one piece is its first piece, `t` at its first occurrence, and a split of the rest. */
  lemma SplitCons(t: string, p: string, rest: seq<string>)
    requires |rest| > 0
    ensures IsSplit(p + t + Join(rest, t), t, [p] + rest)
      <==> FirstOccursAt(p + t, t, |p|) && IsSplit(Join(rest, t), t, rest)
  {
    var ps := [p] + rest;
    assert ps[1..] == rest;
    assert ps[|ps| - 1] == rest[|rest| - 1];
    assert forall k :: 0 < k < |ps| ==> ps[k] == rest[k - 1];
  }

  /** Every string splits at the occurrences of a non-empty `t`. */
  function Split(s: string, t: string): (ps: seq<string>)
    requires |t| > 0
    ensures IsSplit(s, t, ps)
    decreases |s|
  {
    match IndexOf(s, t)
    case None => [s]
    case Some(i) =>
      var tail := Split(s[i + |t|..], t);
      SplitAtFirst(s, t, i, tail);
      [s[..i]] + tail
  }

  /** Cutting `s` at the first occurrence of `t` and splitting the remainder splits `s`. */
  lemma SplitAtFirst(s: string, t: string, i: nat, tail: seq<string>)
    requires FirstOccursAt(s, t, i) && IsSplit(s[i + |t|..], t, tail)
    ensures IsSplit(s, t, [s[..i]] + tail)
  {
    assert s == s[..i] + t + s[i + |t|..] by {
      assert s[i..i + |t|] == t;
    }
    PrefixFirst(s[..i], t, s[i + |t|..]);
    SplitCons(t, s[..i], tail);
  }

  /**
   * `replace` is the split pieces joined by the replacement: for any split of
   * `s` at `t`, replacing every `t` by `n` puts `n` between the same pieces.
   */
  lemma {:induction false} ReplaceAllJoinsPieces(s: string, t: string, n: string, ps: seq<string>)
    requires |t| > 0 && IsSplit(s, t, ps)
    ensures ReplaceAll(s, t, n) == Join(ps, n)
    decreases |ps|
  {
    if |ps| > 1 {
      var p, rest := ps[0], ps[1..];
      var tail := Join(rest, t);
      assert ps == [p] + rest;
      assert s == p + t + tail;
      SplitCons(t, p, rest);
      PrefixFirst(p, t, tail);
      IndexOfFindsFirst(s, t, |p|);
      assert s[..|p|] == p;
      assert s[|p| + |t|..] == tail;
      ReplaceAllJoinsPieces(tail, t, n, rest);
      assert ReplaceAll(s, t, n) == p + n + ReplaceAll(tail, t, n);
    }
  }

  /** Replacing a string by itself changes nothing. */
  lemma {:induction false} ReplaceWithItself(s: string, t: string)
    requires |t| > 0
    ensures ReplaceAll(s, t, t) == s
    decreases |s|
  {
    match IndexOf(s, t)
    case None =>
    case Some(i) =>
      var rest := s[i + |t|..];
      ReplaceWithItself(rest, t);
      assert s[i..i + |t|] == t;
      assert s == s[..i] + s[i..i + |t|] + rest;
  }

  /**
   * A string that ends with `t` and holds no earlier occurrence of it has
   * exactly that last occurrence replaced.
   */
  lemma ReplaceTrailing(a: string, t: string, n: string)
    requires |t| > 0
    requires FirstOccursAt(a + t, t, |a|)
    ensures ReplaceAll(a + t, t, n) == a + n
  {
  }

  /**
   * Before the first occurrence of `t` the text is kept, and the replacement
   * stands where that occurrence was.
   */
  lemma ReplaceKeepsTextBeforeFirst(s: string, t: string, n: string, i: nat)
    requires |t| > 0
    requires IndexOf(s, t) == Some(i)
    ensures |ReplaceAll(s, t, n)| >= i + |n|
    ensures ReplaceAll(s, t, n)[..i] == s[..i]
    ensures ReplaceAll(s, t, n)[i..i + |n|] == n
  {
  }
}
