/**
 * `Array.prototype.filter` over sequences, and the facts about it that the
 * movie handlers rely on: it keeps exactly the elements the predicate
 * accepts, in their original order.
 */
module Sequences {

  /** `s.filter(f)`: the elements of `s` that satisfy `f`, in order. */
  function Filter<T(!new)>(s: seq<T>, f: T -> bool): (r: seq<T>)
    ensures |r| <= |s|
    ensures forall i :: 0 <= i < |r| ==> f(r[i])
    ensures forall x :: x in r <==> x in s && f(x)
  {
    if s == [] then []
    else if f(s[0]) then [s[0]] + Filter(s[1..], f)
    else Filter(s[1..], f)
  }

  /** `a` is obtained from `b` by deleting elements, keeping the order of the rest. */
  ghost predicate IsSubsequence<T(!new)>(a: seq<T>, b: seq<T>)
    decreases |b|
  {
    a == [] || (b != [] && ((a[0] == b[0] && IsSubsequence(a[1..], b[1..])) || IsSubsequence(a, b[1..])))
  }

  /** Filtering keeps the relative order of the surviving elements. */
  lemma {:induction false} FilterIsSubsequence<T(!new)>(s: seq<T>, f: T -> bool)
    ensures IsSubsequence(Filter(s, f), s)
  {
    if s != [] {
      FilterIsSubsequence(s[1..], f);
      if f(s[0]) {
        assert Filter(s, f)[1..] == Filter(s[1..], f);
      }
    }
  }

  /** Nothing is removed exactly when every element satisfies the predicate, and then the result is the input. */
  lemma {:induction false} FilterKeepsLength<T(!new)>(s: seq<T>, f: T -> bool)
    ensures |Filter(s, f)| == |s| <==> forall i :: 0 <= i < |s| ==> f(s[i])
    ensures (forall i :: 0 <= i < |s| ==> f(s[i])) ==> Filter(s, f) == s
  {
    if s != [] {
      FilterKeepsLength(s[1..], f);
      assert forall i :: 1 <= i < |s| ==> s[1..][i - 1] == s[i];
      if f(s[0]) && (forall i :: 0 <= i < |s| - 1 ==> f(s[1..][i])) {
        assert s == [s[0]] + s[1..];
      }
    }
  }

  /** Two filters in a row are one filter by the conjunction of their predicates. */
  lemma {:induction false} FilterFuse<T(!new)>(s: seq<T>, f: T -> bool, g: T -> bool, h: T -> bool)
    requires forall x :: h(x) == (f(x) && g(x))
    ensures Filter(Filter(s, f), g) == Filter(s, h)
  {
    if s != [] {
      FilterFuse(s[1..], f, g, h);
      if f(s[0]) {
        assert Filter(s, f) == [s[0]] + Filter(s[1..], f);
        assert Filter(s, f)[1..] == Filter(s[1..], f);
      }
    }
  }

  /** Predicates that agree on every element of `s` filter it alike. */
  lemma {:induction false} FilterAgree<T(!new)>(s: seq<T>, f: T -> bool, g: T -> bool)
    requires forall i :: 0 <= i < |s| ==> f(s[i]) == g(s[i])
    ensures Filter(s, f) == Filter(s, g)
  {
    if s != [] {
      assert forall i :: 0 <= i < |s| - 1 ==> s[1..][i] == s[i + 1];
      FilterAgree(s[1..], f, g);
    }
  }

  /** When exactly the element at `i` fails the predicate, filtering removes just that element. */
  lemma {:induction false} FilterDropsOne<T(!new)>(s: seq<T>, f: T -> bool, i: int)
    requires 0 <= i < |s| && !f(s[i])
    requires forall k :: 0 <= k < |s| && k != i ==> f(s[k])
    ensures Filter(s, f) == s[..i] + s[i + 1..]
  {
    if i == 0 {
      assert forall k :: 0 <= k < |s| - 1 ==> f(s[1..][k]) by {
        forall k | 0 <= k < |s| - 1 ensures f(s[1..][k]) {
          assert s[1..][k] == s[k + 1];
        }
      }
      FilterKeepsLength(s[1..], f);
    } else {
      FilterDropsOne(s[1..], f, i - 1);
      assert s[..i] == [s[0]] + s[1..][..i - 1];
      assert s[i + 1..] == s[1..][i..];
    }
  }
}
