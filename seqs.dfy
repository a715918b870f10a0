/**
 * The array operations the loader's queries are built from: `filter`, which
 * keeps the elements a test accepts in their order, and `sort` with the
 * numeric comparator `(a, b) => a - b`.
 */
module Seqs {

  /** `s.filter(f)`, built from the front so that it extends element by element. */
  function Filter<T>(f: T -> bool, s: seq<T>): (r: seq<T>)
    ensures |r| <= |s|
    ensures forall x :: x in r ==> x in s && f(x)
    ensures forall k :: 0 <= k < |r| ==> f(r[k])
  {
    if |s| == 0 then []
    else Filter(f, s[..|s| - 1]) + (if f(s[|s| - 1]) then [s[|s| - 1]] else [])
  }

  /** A filter extends by the last element exactly when the test accepts it. */
  lemma FilterStep<T>(f: T -> bool, s: seq<T>)
    requires |s| > 0
    ensures Filter(f, s) == Filter(f, s[..|s| - 1]) + (if f(s[|s| - 1]) then [s[|s| - 1]] else [])
  {
  }

  /** Filtering keeps every accepted element. */
  lemma {:induction false} FilterKeeps<T>(f: T -> bool, s: seq<T>, x: T)
    requires x in s && f(x)
    ensures x in Filter(f, s)
  {
    var prefix := s[..|s| - 1];
    if x != s[|s| - 1] {
      assert x in prefix by {
        assert s == prefix + [s[|s| - 1]];
      }
      FilterKeeps(f, prefix, x);
    }
  }

  /** `s.map(g)`. */
  function Map<T, U>(g: T -> U, s: seq<T>): (r: seq<U>)
    ensures |r| == |s|
    ensures forall k :: 0 <= k < |s| ==> r[k] == g(s[k])
  {
    seq(|s|, k requires 0 <= k < |s| => g(s[k]))
  }

  /** Concatenation is associative. */
  lemma AppendAssoc<T>(a: seq<T>, b: seq<T>, c: seq<T>)
    ensures (a + b) + c == a + (b + c)
  {
  }

  /** Mapping a concatenation maps each part in turn. */
  lemma MapAppend<T, U>(g: T -> U, a: seq<T>, b: seq<T>)
    ensures Map(g, a + b) == Map(g, a) + Map(g, b)
  {
    assert forall k :: 0 <= k < |a + b| ==> Map(g, a + b)[k] == (Map(g, a) + Map(g, b))[k];
  }

  /** The concatenation of `g(x)` over the elements `x` of `s`, in order: a loop that pushes what `g` gives. */
  function FlatMap<T, U>(g: T -> seq<U>, s: seq<T>): seq<U>
  {
    if |s| == 0 then [] else FlatMap(g, s[..|s| - 1]) + g(s[|s| - 1])
  }

  /** One more element adds what `g` gives for it at the end. */
  lemma FlatMapStep<T, U>(g: T -> seq<U>, s: seq<T>, j: nat)
    requires j < |s|
    ensures FlatMap(g, s[..j + 1]) == FlatMap(g, s[..j]) + g(s[j])
  {
    assert s[..j + 1][..j] == s[..j];
  }

  /** A concatenation gives what each part gives, in turn. */
  lemma {:induction false} FlatMapAppend<T, U>(g: T -> seq<U>, a: seq<T>, b: seq<T>)
    ensures FlatMap(g, a + b) == FlatMap(g, a) + FlatMap(g, b)
    decreases |b|
  {
    if |b| == 0 {
      assert a + b == a;
    } else {
      assert (a + b)[..|a + b| - 1] == a + b[..|b| - 1];
      FlatMapAppend(g, a, b[..|b| - 1]);
    }
  }

  /** Filtering out elements for which `g` gives nothing changes nothing. */
  lemma {:induction false} FlatMapFilter<T, U>(g: T -> seq<U>, f: T -> bool, s: seq<T>)
    requires forall x :: !f(x) ==> g(x) == []
    ensures FlatMap(g, Filter(f, s)) == FlatMap(g, s)
  {
    if |s| > 0 {
      var prefix, last := s[..|s| - 1], s[|s| - 1];
      FlatMapFilter(g, f, prefix);
      FilterStep(f, s);
      if f(last) {
        var kept := Filter(f, prefix) + [last];
        assert kept[..|kept| - 1] == Filter(f, prefix);
      } else {
        assert Filter(f, prefix) + [] == Filter(f, prefix);
        assert FlatMap(g, prefix) + g(last) == FlatMap(g, prefix);
      }
    }
  }

  /**
   * When `g` gives one value for the elements `f` accepts and nothing for the
   * others, the result holds one value per accepted element, in order.
   */
  lemma {:induction false} FlatMapSingletons<T, U>(g: T -> seq<U>, f: T -> bool, s: seq<T>)
    requires forall x :: |g(x)| == (if f(x) then 1 else 0)
    ensures |FlatMap(g, s)| == |Filter(f, s)|
    ensures forall k :: 0 <= k < |Filter(f, s)| ==> FlatMap(g, s)[k] == g(Filter(f, s)[k])[0]
  {
    if |s| > 0 {
      var prefix, last := s[..|s| - 1], s[|s| - 1];
      FlatMapSingletons(g, f, prefix);
      FilterStep(f, s);
      if !f(last) {
        assert Filter(f, prefix) + [] == Filter(f, prefix);
        assert FlatMap(g, prefix) + g(last) == FlatMap(g, prefix);
      }
    }
  }

  /** Everything in the result comes from one element. */
  lemma {:induction false} FlatMapFrom<T, U>(g: T -> seq<U>, s: seq<T>, u: U)
    requires u in FlatMap(g, s)
    ensures exists k :: 0 <= k < |s| && u in g(s[k])
  {
    var prefix := s[..|s| - 1];
    if u in FlatMap(g, prefix) {
      FlatMapFrom(g, prefix, u);
      var k :| 0 <= k < |prefix| && u in g(prefix[k]);
      assert prefix[k] == s[k];
    } else {
      assert u in g(s[|s| - 1]);
    }
  }

  /** What `g` gives for any element is in the result. */
  lemma FlatMapMember<T, U>(g: T -> seq<U>, s: seq<T>, j: nat, u: U)
    requires j < |s| && u in g(s[j])
    ensures u in FlatMap(g, s)
  {
    assert s == s[..j + 1] + s[j + 1..];
    FlatMapAppend(g, s[..j + 1], s[j + 1..]);
    FlatMapStep(g, s, j);
  }

  /** Strictly ascending: every element occurs once, and in order. */
  predicate Increasing(s: seq<int>)
  {
    forall i, j :: 0 <= i < j < |s| ==> s[i] < s[j]
  }

  /** A sequence whose neighbours ascend strictly is strictly ascending. */
  lemma {:induction false} AdjacentIncreasing(s: seq<int>)
    requires forall i :: 0 < i < |s| ==> s[i - 1] < s[i]
    ensures Increasing(s)
  {
    if |s| > 1 {
      var prefix := s[..|s| - 1];
      assert forall i :: 0 < i < |prefix| ==> prefix[i - 1] < prefix[i];
      AdjacentIncreasing(prefix);
      forall i | 0 <= i < |s| - 1
        ensures s[i] < s[|s| - 1]
      {
        assert prefix[i] <= prefix[|prefix| - 1] by {
          if i < |prefix| - 1 {
            assert prefix[i] < prefix[|prefix| - 1];
          }
        }
      }
    }
  }

  /** A filter keeps a strictly ascending sequence strictly ascending. */
  lemma {:induction false} FilterIncreasing(f: nat -> bool, s: seq<nat>)
    requires Increasing(s)
    ensures Increasing(Filter(f, s))
  {
    if |s| > 0 {
      var prefix := s[..|s| - 1];
      assert Increasing(prefix);
      FilterIncreasing(f, prefix);
      var r, last := Filter(f, prefix), s[|s| - 1];
      forall k | 0 <= k < |r|
        ensures r[k] < last
      {
        assert r[k] in prefix;
      }
      assert Filter(f, s) == r + (if f(last) then [last] else []);
    }
  }

  predicate Sorted(s: seq<int>)
  {
    forall i, j :: 0 <= i < j < |s| ==> s[i] <= s[j]
  }

  /** `x` placed into the ascending sequence `s` before the first larger element. */
  function Insert(x: int, s: seq<int>): (r: seq<int>)
    requires Sorted(s)
    ensures Sorted(r)
    ensures multiset(r) == multiset(s) + multiset{x}
  {
    if |s| == 0 then [x]
    else if x <= s[0] then [x] + s
    else
      var rest := Insert(x, s[1..]);
      InsertAfterHead(x, s, rest);
      [s[0]] + rest
  }

  /** Putting back the smallest element in front of an insertion keeps the order and the elements. */
  lemma InsertAfterHead(x: int, s: seq<int>, rest: seq<int>)
    requires Sorted(s) && |s| > 0 && s[0] < x
    requires Sorted(rest) && multiset(rest) == multiset(s[1..]) + multiset{x}
    ensures Sorted([s[0]] + rest)
    ensures multiset([s[0]] + rest) == multiset(s) + multiset{x}
  {
    assert s == [s[0]] + s[1..];
    forall k | 0 <= k < |rest|
      ensures s[0] <= rest[k]
    {
      assert rest[k] in multiset(rest);
    }
  }

  /** `s.sort((a, b) => a - b)`: the elements of `s` in ascending order. */
  function SortAscending(s: seq<int>): (r: seq<int>)
    ensures Sorted(r)
    ensures multiset(r) == multiset(s)
  {
    if |s| == 0 then []
    else
      assert s == s[..|s| - 1] + [s[|s| - 1]];
      Insert(s[|s| - 1], SortAscending(s[..|s| - 1]))
  }

  /**
   * Two ascending sequences with the same elements are equal, so every correct
   * sort of a number sequence, stable or not, gives the result of SortAscending.
   */
  lemma {:induction false} SortedUnique(a: seq<int>, b: seq<int>)
    requires Sorted(a) && Sorted(b) && multiset(a) == multiset(b)
    ensures a == b
    decreases |a|
  {
    SameLength(a, b);
    if |a| > 0 {
      MinIsFirst(a, b[0]);
      MinIsFirst(b, a[0]);
      SameTails(a, b);
      SortedUnique(a[1..], b[1..]);
      assert a == [a[0]] + a[1..] && b == [b[0]] + b[1..];
    }
  }

  /** Sequences with the same elements have the same length. */
  lemma SameLength(a: seq<int>, b: seq<int>)
    requires multiset(a) == multiset(b)
    ensures |a| == |b|
  {
    assert |a| == |multiset(a)| && |b| == |multiset(b)|;
  }

  /** Removing an equal first element from sequences with the same elements leaves the same elements. */
  lemma SameTails(a: seq<int>, b: seq<int>)
    requires |a| > 0 && |b| > 0 && a[0] == b[0] && multiset(a) == multiset(b)
    ensures multiset(a[1..]) == multiset(b[1..])
  {
    assert a == [a[0]] + a[1..] && b == [b[0]] + b[1..];
    assert multiset(a[1..]) == multiset(a) - multiset{a[0]};
    assert multiset(b[1..]) == multiset(b) - multiset{b[0]};
  }

  /** In an ascending sequence the first element is at most any element. */
  lemma MinIsFirst(s: seq<int>, x: int)
    requires Sorted(s) && x in multiset(s)
    ensures |s| > 0 && s[0] <= x
  {
    var k :| 0 <= k < |s| && s[k] == x;
  }
}
