/**
 * The header list of a parsed message: the first-match lookup by prefix
 * (`findHeader`) and `MutableList.remove`, which drops the first element
 * equal to its argument.
 */
module Headers {
  import opened Wrappers
  import opened Text

  /** Specification of `findHeader`: the index of the first header, in list order, that starts with `prefix`. */
  function FirstMatch(headers: seq<string>, prefix: string): (r: Option<nat>)
    ensures r.Some? ==> r.value < |headers| && StartsWith(headers[r.value], prefix)
    ensures forall j :: 0 <= j < |headers| && (r.None? || j < r.value) ==> !StartsWith(headers[j], prefix)
  {
    if |headers| == 0 then None
    else if StartsWith(headers[0], prefix) then Some(0)
    else
      match FirstMatch(headers[1..], prefix)
      case None => None
      case Some(k) => Some(k + 1)
  }

  /** Header `i` is the first one, in list order, that starts with `prefix`. */
  predicate IsFirstWithPrefix(headers: seq<string>, prefix: string, i: nat) {
    i < |headers| && StartsWith(headers[i], prefix) && forall j :: 0 <= j < i ==> !StartsWith(headers[j], prefix)
  }

  /** `findHeader`: a scan of the list that returns the first header starting with `prefix`, or None. */
  method FindHeader(headers: seq<string>, prefix: string) returns (r: Option<string>)
    ensures r.None? <==> forall j :: 0 <= j < |headers| ==> !StartsWith(headers[j], prefix)
    ensures r.Some? ==> exists i :: FirstMatch(headers, prefix) == Some(i) && r.value == headers[i]
  {
    for n := 0 to |headers|
      invariant forall j :: 0 <= j < n ==> !StartsWith(headers[j], prefix)
    {
      if StartsWith(headers[n], prefix) {
        assert FirstMatch(headers, prefix) == Some(n);
        return Some(headers[n]);
      }
    }
    return None;
  }

  /** `headers.remove(x)`: the list without the first element equal to `x`; unchanged when there is none. */
  function RemoveFirst<T(==)>(s: seq<T>, x: T): (r: seq<T>)
    ensures x !in s ==> r == s
    ensures x in s ==> |r| == |s| - 1
  {
    if |s| == 0 then s
    else
      assert s == [s[0]] + s[1..];
      if s[0] == x then s[1..] else [s[0]] + RemoveFirst(s[1..], x)
  }

  /** Removing the first occurrence of `x`, found at `i`, leaves everything else in order. */
  lemma {:induction false} RemoveFirstAt<T>(s: seq<T>, x: T, i: nat)
    requires i < |s| && s[i] == x
    requires forall j :: 0 <= j < i ==> s[j] != x
    ensures RemoveFirst(s, x) == s[..i] + s[i + 1..]
  {
    if i == 0 {
      assert s[..0] + s[1..] == s[1..];
    } else {
      var tail := s[1..];
      RemoveFirstAt(tail, x, i - 1);
      assert s[0] != x;
      assert RemoveFirst(s, x) == [s[0]] + RemoveFirst(tail, x);
      assert tail[..i - 1] == s[1..i];
      assert tail[i..] == s[i + 1..];
      assert [s[0]] + s[1..i] == s[..i];
    }
  }

  /** `remove` of the header `findHeader` returned deletes exactly the element it located, even when duplicates follow. */
  lemma RemovesLocatedHeader(headers: seq<string>, prefix: string, i: nat)
    requires FirstMatch(headers, prefix) == Some(i)
    ensures RemoveFirst(headers, headers[i]) == headers[..i] + headers[i + 1..]
  {
    forall j | 0 <= j < i ensures headers[j] != headers[i] {
      assert !StartsWith(headers[j], prefix);
    }
    RemoveFirstAt(headers, headers[i], i);
  }
}
