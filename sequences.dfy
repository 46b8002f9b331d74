/** Generic sequence vocabulary used by the linked-list models: reversal, insertion at an
    index and distinctness (no node appears twice in a chain). */
module Sequences {

  /** The elements of `s` in the opposite order. */
  ghost function Reversed<T>(s: seq<T>): seq<T> {
    if s == [] then [] else Reversed(s[1..]) + [s[0]]
  }

  /** Element `i` of the reversal is element `|s| - 1 - i` of the original. */
  lemma {:induction false} ReversedAt<T>(s: seq<T>)
    ensures |Reversed(s)| == |s|
    ensures forall i :: 0 <= i < |s| ==> Reversed(s)[i] == s[|s| - 1 - i]
  {
    if s != [] {
      ReversedAt(s[1..]);
    }
  }

  /** `s` with `x` placed so that it becomes element `k`. */
  ghost function InsertAt<T>(s: seq<T>, k: int, x: T): seq<T>
    requires 0 <= k <= |s|
  {
    s[..k] + [x] + s[k..]
  }

  /** Inserting adds exactly one occurrence of `x` and keeps the order of the others. */
  lemma InsertAtParts<T>(s: seq<T>, k: int, x: T)
    requires 0 <= k <= |s|
    ensures |InsertAt(s, k, x)| == |s| + 1
    ensures InsertAt(s, k, x)[k] == x
    ensures forall i :: 0 <= i < k ==> InsertAt(s, k, x)[i] == s[i]
    ensures forall i :: k < i <= |s| ==> InsertAt(s, k, x)[i] == s[i - 1]
    ensures multiset(InsertAt(s, k, x)) == multiset(s) + multiset{x}
  {
    assert s == s[..k] + s[k..];
  }

  /** No element occurs twice. */
  ghost predicate Distinct<T>(s: seq<T>) {
    forall i, j :: 0 <= i < j < |s| ==> s[i] != s[j]
  }

  /** No element of `a` is an element of `b`. */
  ghost predicate Apart<T>(a: seq<T>, b: seq<T>) {
    forall i, j :: 0 <= i < |a| && 0 <= j < |b| ==> a[i] != b[j]
  }

  /** Moving the first element of `a` to the front of `b` keeps them apart. */
  lemma ApartStep<T>(a: seq<T>, b: seq<T>)
    requires a != [] && Distinct(a) && Apart(a, b)
    ensures Apart(a[1..], [a[0]] + b)
  {
    forall i, j | 0 <= i < |a| - 1 && 0 <= j <= |b| ensures a[1..][i] != ([a[0]] + b)[j] {
      if j > 0 {
        assert ([a[0]] + b)[j] == b[j - 1];
      }
    }
  }

  /** Moving the first element of `a` to the front of `b` keeps `Reversed(a) + b`. */
  lemma ReversedStep<T>(a: seq<T>, b: seq<T>)
    requires a != []
    ensures Reversed(a[1..]) + ([a[0]] + b) == Reversed(a) + b
  {
  }

  /** Reversal keeps distinctness. */
  lemma DistinctReversed<T>(s: seq<T>)
    requires Distinct(s)
    ensures Distinct(Reversed(s))
  {
    ReversedAt(s);
    forall i, j | 0 <= i < j < |s| ensures Reversed(s)[i] != Reversed(s)[j] {
      assert Reversed(s)[i] == s[|s| - 1 - i] && Reversed(s)[j] == s[|s| - 1 - j];
    }
  }
}
