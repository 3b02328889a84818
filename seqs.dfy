/** Sequence utilities shared by the listings and the voice selection. */
module Seqs {
  import opened Wrappers

  /** The index of the first element satisfying `p` (JavaScript's `findIndex`,
      with `None` for "not found"). */
  function FindFirst<T>(s: seq<T>, p: T -> bool): (r: Option<nat>)
    ensures r.Some? ==> r.value < |s| && p(s[r.value])
    ensures r.Some? ==> forall j :: 0 <= j < r.value ==> !p(s[j])
    ensures r.None? ==> forall j :: 0 <= j < |s| ==> !p(s[j])
  {
    if s == [] then None
    else if p(s[0]) then Some(0)
    else match FindFirst(s[1..], p)
      case None => None
      case Some(i) => Some(i + 1)
  }

  /** No element occurs twice. */
  ghost predicate Distinct<T>(s: seq<T>) {
    forall i, j :: 0 <= i < j < |s| ==> s[i] != s[j]
  }

  /** No element satisfies `p`. */
  ghost predicate NoMatch<T>(s: seq<T>, p: T -> bool) {
    forall i :: 0 <= i < |s| ==> !p(s[i])
  }

  lemma NoMatchConcat<T>(a: seq<T>, b: seq<T>, p: T -> bool)
    requires NoMatch(a, p) && NoMatch(b, p)
    ensures NoMatch(a + b, p)
  {
    forall i | 0 <= i < |a + b|
      ensures !p((a + b)[i])
    {
      if i >= |a| { assert (a + b)[i] == b[i - |a|]; }
    }
  }

  /** The first match is at `i` when `s[i]` matches and nothing before it does. */
  lemma FindFirstAt<T>(s: seq<T>, p: T -> bool, i: nat)
    requires i < |s| && p(s[i]) && NoMatch(s[..i], p)
    ensures FindFirst(s, p) == Some(i)
  {
    assert forall j :: 0 <= j < i ==> s[j] == s[..i][j];
  }

  /** In a sequence that starts with `a + b`, the first match is at index
      `j` of `b` when `b[j]` matches and nothing before it does. */
  lemma FindFirstAfter<T>(s: seq<T>, a: seq<T>, b: seq<T>, p: T -> bool, j: nat)
    requires |a| + |b| <= |s| && s[..|a| + |b|] == a + b
    requires j < |b| && p(b[j]) && NoMatch(a, p) && NoMatch(b[..j], p)
    ensures |a| + j < |s| && s[|a| + j] == b[j]
    ensures FindFirst(s, p) == Some(|a| + j)
  {
    var at := |a| + j;
    assert s[at] == (a + b)[at];
    assert s[..at] == a + b[..j] by {
      assert s[..at] == (s[..|a| + |b|])[..at];
    }
    NoMatchConcat(a, b[..j], p);
    FindFirstAt(s, p, at);
  }

  /** A non-empty sequence holds its first element. */
  lemma HeadIn<T>(s: seq<T>)
    requires s != []
    ensures s[0] in s
  {
  }
}
