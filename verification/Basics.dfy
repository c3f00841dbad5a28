/** Options, lists, and signs of products. */
module Basics {
  datatype Option<+T> = None | Some(value: T)

  // ----- lists

  function Reversed<T>(s: seq<T>): (r: seq<T>)
    ensures |r| == |s| && forall k :: 0 <= k < |s| ==> r[k] == s[|s| - 1 - k]
  {
    if s == [] then [] else [s[|s| - 1]] + Reversed(s[..|s| - 1])
  }

  ghost predicate Distinct<T>(s: seq<T>) {
    forall i, j :: 0 <= i < j < |s| ==> s[i] != s[j]
  }

  function One(b: bool): nat {
    if b then 1 else 0
  }

  /** How often x occurs in s. */
  function Count<T(==)>(s: seq<T>, x: T): nat {
    multiset(s)[x]
  }

  lemma CountAppend<T>(s: seq<T>, y: T, x: T)
    ensures Count(s + [y], x) == Count(s, x) + One(x == y)
  {
  }

  lemma CountConcat<T>(a: seq<T>, b: seq<T>, x: T)
    ensures Count(a + b, x) == Count(a, x) + Count(b, x)
  {
  }

  lemma CountFirst<T>(s: seq<T>, x: T)
    requires s != []
    ensures Count(s, x) == Count(s[1..], x) + One(x == s[0])
  {
    assert s == [s[0]] + s[1..];
  }

  lemma CountNone<T>(x: T)
    ensures Count([], x) == 0
  {
  }

  // ----- signs

  /** The sign of a product. */
  lemma Signs(a: real, b: real, m: real)
    requires m == a * b
    ensures (a >= 0.0 && b >= 0.0) || (a <= 0.0 && b <= 0.0) ==> m >= 0.0
    ensures (a >= 0.0 && b <= 0.0) || (a <= 0.0 && b >= 0.0) ==> m <= 0.0
    ensures a != 0.0 && b != 0.0 ==> m != 0.0
  {
  }
}
