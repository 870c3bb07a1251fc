/** Sequence helpers: the order-preserving filter behind `Array.from(...).filter`
    and the "remove one element" of a JavaScript `Set`, with what they promise. */
module Seqs {

  /** No element occurs twice. */
  ghost predicate Distinct<T>(s: seq<T>) {
    forall i, j | 0 <= i < j < |s| :: s[i] != s[j]
  }

  /** `t` is `s` with some elements deleted, the rest kept in their order. */
  ghost predicate Subsequence<T>(t: seq<T>, s: seq<T>)
    decreases |s|
  {
    if t == [] then true
    else if s == [] then false
    else (t[0] == s[0] && Subsequence(t[1..], s[1..])) || Subsequence(t, s[1..])
  }

  /** Dropping the head of a list without duplicates leaves one without
      duplicates that does not contain the head. */
  lemma DistinctTail<T>(s: seq<T>)
    requires s != [] && Distinct(s)
    ensures Distinct(s[1..]) && s[0] !in s[1..]
  {
  }

  /** The elements of `s` that are not in `xs`, in their order in `s`. */
  function Without<T(!new)>(s: seq<T>, xs: set<T>): (r: seq<T>)
    ensures |r| <= |s|
    ensures forall x :: x in r <==> x in s && x !in xs
  {
    if s == [] then []
    else if s[0] in xs then Without(s[1..], xs)
    else [s[0]] + Without(s[1..], xs)
  }

  /** The filter keeps the relative order of what it keeps. */
  lemma {:induction false} WithoutSubsequence<T(!new)>(s: seq<T>, xs: set<T>)
    ensures Subsequence(Without(s, xs), s)
  {
    if s != [] {
      WithoutSubsequence(s[1..], xs);
      var r := Without(s, xs);
      if s[0] !in xs {
        assert r[0] == s[0] && r[1..] == Without(s[1..], xs);
      }
    }
  }

  /** The filter of a list without duplicates has none either. */
  lemma {:induction false} WithoutDistinct<T(!new)>(s: seq<T>, xs: set<T>)
    requires Distinct(s)
    ensures Distinct(Without(s, xs))
  {
    if s != [] {
      DistinctTail(s);
      WithoutDistinct(s[1..], xs);
      if s[0] !in xs {
        var rest := Without(s[1..], xs);
        assert s[0] !in rest;
        var r := [s[0]] + rest;
        forall i, j | 0 <= i < j < |r| ensures r[i] != r[j] {
          if i == 0 {
            assert r[j] == rest[j - 1];
          } else {
            assert r[i] == rest[i - 1] && r[j] == rest[j - 1];
          }
        }
      }
    }
  }

  /** Filtering out elements that do not occur changes nothing. */
  lemma {:induction false} WithoutNothing<T(!new)>(s: seq<T>, xs: set<T>)
    requires forall i | 0 <= i < |s| :: s[i] !in xs
    ensures Without(s, xs) == s
  {
    if s != [] {
      WithoutNothing(s[1..], xs);
      assert [s[0]] + s[1..] == s;
    }
  }

  /** The filter distributes over concatenation. */
  lemma {:induction false} WithoutAppend<T(!new)>(a: seq<T>, b: seq<T>, xs: set<T>)
    ensures Without(a + b, xs) == Without(a, xs) + Without(b, xs)
  {
    if a == [] {
      assert a + b == b;
    } else {
      assert (a + b)[0] == a[0] && (a + b)[1..] == a[1..] + b;
      WithoutAppend(a[1..], b, xs);
    }
  }
}
