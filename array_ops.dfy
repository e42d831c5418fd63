/** The JavaScript array primitives both pools rely on, as functions on
    sequences: `indexOf` (first occurrence, or -1), `splice(i, 1)` (drop the
    element at i) and their combination, removing the first occurrence of a
    value when there is one. */
module ArrayOps {

  /** `s.indexOf(x)`: the position of the first occurrence of `x`, or -1. */
  function IndexOf<T(==)>(s: seq<T>, x: T): (i: int)
    ensures -1 <= i < |s|
    ensures i == -1 <==> x !in s
    ensures 0 <= i ==> s[i] == x && x !in s[..i]
  {
    if s == [] then -1
    else if s[0] == x then 0
    else
      var j := IndexOf(s[1..], x);
      assert j >= 0 ==> s[1..][..j] == s[1..j + 1];
      if j == -1 then -1 else j + 1
  }

  /** A position holding `x` with no `x` before it is `indexOf`'s answer. */
  lemma FirstOccurrence<T>(s: seq<T>, x: T, p: nat)
    requires p < |s| && s[p] == x && x !in s[..p]
    ensures IndexOf(s, x) == p
  {
  }

  /** `s.splice(i, 1)`: the sequence without its element at position `i`;
      everything before `i` keeps its place, everything after moves down one. */
  function Splice<T>(s: seq<T>, i: nat): (r: seq<T>)
    requires i < |s|
    ensures |r| == |s| - 1
    ensures forall j :: 0 <= j < i ==> r[j] == s[j]
    ensures forall j :: i <= j < |r| ==> r[j] == s[j + 1]
    ensures multiset(r) == multiset(s) - multiset{s[i]}
  {
    assert s == s[..i] + [s[i]] + s[i + 1..];
    s[..i] + s[i + 1..]
  }

  /** `const k = s.indexOf(x); if (k > -1) s.splice(k, 1)`: removes exactly
      one copy of `x` when `x` occurs, and leaves `s` alone otherwise. */
  function RemoveFirst<T(==)>(s: seq<T>, x: T): (r: seq<T>)
    ensures x !in s ==> r == s
    ensures x in s ==> |r| == |s| - 1 && multiset(r) == multiset(s) - multiset{x}
  {
    var k := IndexOf(s, x);
    if k > -1 then Splice(s, k) else s
  }

  /** The identities base, base + 1, ..., base + n - 1. */
  function Ids(base: nat, n: nat): (r: seq<nat>)
    ensures |r| == n && forall j :: 0 <= j < n ==> r[j] == base + j
  {
    seq(n, j => base + j)
  }

  /** Every element of `ids` is an index into a list of `n` objects. */
  predicate IdsBelow(ids: seq<nat>, n: nat)
  {
    forall j :: 0 <= j < |ids| ==> ids[j] < n
  }

  /** Removing the first occurrence of the head of a sequence drops the head. */
  lemma RemoveFirstOfHead<T>(s: seq<T>)
    requires s != []
    ensures RemoveFirst(s, s[0]) == s[1..]
  {
  }
}
