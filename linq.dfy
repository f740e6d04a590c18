/**
 * The LINQ operators the availability pipeline is built from, on finite
 * sequences: `Where` (filter, order kept), `Select` (map) and `Union`
 * (distinct elements of the first list, then those of the second not yet seen).
 */
module Linq {

  /** `a` is obtained from `b` by deleting some elements, keeping the order of the rest. */
  predicate IsSubsequence<T(==,!new)>(a: seq<T>, b: seq<T>)
    decreases |b|
  {
    a == [] ||
    (b != [] && ((a[0] == b[0] && IsSubsequence(a[1..], b[1..])) || IsSubsequence(a, b[1..])))
  }

  /** No element occurs twice. */
  predicate NoDuplicates<T(==,!new)>(s: seq<T>)
  {
    forall i, j :: 0 <= i < j < |s| ==> s[i] != s[j]
  }

  lemma {:induction false} SubsequenceTransitive<T(!new)>(a: seq<T>, b: seq<T>, c: seq<T>)
    requires IsSubsequence(a, b) && IsSubsequence(b, c)
    ensures IsSubsequence(a, c)
    decreases |c|
  {
    if a != [] {
      assert b != [] && c != [];
      if b[0] == c[0] && IsSubsequence(b[1..], c[1..]) {
        if a[0] == b[0] && IsSubsequence(a[1..], b[1..]) {
          SubsequenceTransitive(a[1..], b[1..], c[1..]);
        } else {
          SubsequenceTransitive(a, b[1..], c[1..]);
        }
      } else {
        SubsequenceTransitive(a, b, c[1..]);
      }
    }
  }

  /** `Enumerable.Where`: the elements of `s` satisfying `p`, in their order, each as often as in `s`. */
  function Where<T(==,!new)>(s: seq<T>, p: T -> bool): (r: seq<T>)
    ensures IsSubsequence(r, s)
    ensures forall x :: x in r <==> x in s && p(x)
    ensures forall x :: multiset(r)[x] == if p(x) then multiset(s)[x] else 0
  {
    if s == [] then []
    else
      var rest := Where(s[1..], p);
      assert s == [s[0]] + s[1..];
      if p(s[0]) then
        assert ([s[0]] + rest)[1..] == rest;
        [s[0]] + rest
      else
        rest
  }

  /** Filtering by a weaker predicate keeps everything a stronger one keeps, in order. */
  lemma {:induction false} WhereMonotone<T(!new)>(s: seq<T>, p: T -> bool, q: T -> bool)
    requires forall x :: x in s && p(x) ==> q(x)
    ensures IsSubsequence(Where(s, p), Where(s, q))
  {
    if s != [] {
      WhereMonotone(s[1..], p, q);
      var rp, rq := Where(s[1..], p), Where(s[1..], q);
      if p(s[0]) {
        assert ([s[0]] + rp)[1..] == rp && ([s[0]] + rq)[1..] == rq;
      } else if q(s[0]) {
        assert ([s[0]] + rq)[1..] == rq;
      }
    }
  }

  /** `Where` distributes over concatenation. */
  lemma {:induction false} WhereAppend<T(!new)>(a: seq<T>, b: seq<T>, p: T -> bool)
    ensures Where(a + b, p) == Where(a, p) + Where(b, p)
  {
    if a == [] {
      assert a + b == b;
    } else {
      assert (a + b)[0] == a[0] && (a + b)[1..] == a[1..] + b;
      WhereAppend(a[1..], b, p);
    }
  }

  /** When every element satisfies `p`, `Where` keeps the whole sequence. */
  lemma {:induction false} WhereAll<T(!new)>(s: seq<T>, p: T -> bool)
    requires forall x :: x in s ==> p(x)
    ensures Where(s, p) == s
  {
    if s != [] {
      assert forall x :: x in s[1..] ==> x in s;
      WhereAll(s[1..], p);
      assert s[0] in s;
    }
  }

  /** When no element satisfies `p`, `Where` keeps nothing. */
  lemma WhereNone<T(!new)>(s: seq<T>, p: T -> bool)
    requires forall x :: x in s ==> !p(x)
    ensures Where(s, p) == []
  {
  }

  /**
   * Three filters applied one after another, each stated by its counts, keep
   * exactly the elements of `s` satisfying all three, each as often as in `s`.
   */
  lemma FilterChain<T(!new)>(s: seq<T>, a: seq<T>, b: seq<T>, c: seq<T>, p: T -> bool, q: T -> bool, r: T -> bool)
    requires forall x :: multiset(a)[x] == if p(x) then multiset(s)[x] else 0
    requires forall x :: multiset(b)[x] == if q(x) then multiset(a)[x] else 0
    requires forall x :: multiset(c)[x] == if r(x) then multiset(b)[x] else 0
    ensures forall x :: multiset(c)[x] == if x in s && p(x) && q(x) && r(x) then multiset(s)[x] else 0
    ensures forall x :: x in c <==> x in s && p(x) && q(x) && r(x)
  {
  }

  /** `Enumerable.Select`: `f` applied to every element, in order. */
  function Select<T(!new), U(==,!new)>(s: seq<T>, f: T -> U): (r: seq<U>)
    ensures |r| == |s|
    ensures forall i :: 0 <= i < |s| ==> r[i] == f(s[i])
    ensures forall y :: y in r <==> exists x :: x in s && f(x) == y
  {
    if s == [] then []
    else
      var rest := Select(s[1..], f);
      assert forall x :: x in s <==> x == s[0] || x in s[1..];
      [f(s[0])] + rest
  }

  /**
   * Each element of `s` that is not in `seen`, exactly once, as a subsequence
   * of `s`. The body keeps first occurrences; `DistinctExceptAppend` and
   * `UnionOrder` pin the resulting order down exactly.
   */
  function DistinctExcept<T(==,!new)>(s: seq<T>, seen: set<T>): (r: seq<T>)
    ensures NoDuplicates(r)
    ensures forall x :: x in r <==> x in s && x !in seen
    ensures IsSubsequence(r, s)
  {
    if s == [] then []
    else if s[0] in seen then
      DistinctExcept(s[1..], seen)
    else
      var rest := DistinctExcept(s[1..], seen + {s[0]});
      assert s == [s[0]] + s[1..];
      assert ([s[0]] + rest)[1..] == rest;
      [s[0]] + rest
  }

  /** `Enumerable.Distinct`. */
  function Distinct<T(==,!new)>(s: seq<T>): (r: seq<T>)
    ensures NoDuplicates(r)
    ensures forall x :: x in r <==> x in s
  {
    DistinctExcept(s, {})
  }

  /** `Enumerable.Union`: every element of either list exactly once. */
  function Union<T(==,!new)>(a: seq<T>, b: seq<T>): (r: seq<T>)
    ensures NoDuplicates(r)
    ensures forall x :: x in r <==> x in a || x in b
  {
    DistinctExcept(a + b, {})
  }

  /** The set of elements of a sequence. */
  function Elements<T(==,!new)>(s: seq<T>): (r: set<T>)
    ensures forall x :: x in r <==> x in s
  {
    if s == [] then {}
    else
      assert forall x :: x in s <==> x == s[0] || x in s[1..];
      {s[0]} + Elements(s[1..])
  }

  lemma {:induction false} DistinctExceptAppend<T(!new)>(a: seq<T>, b: seq<T>, seen: set<T>)
    ensures DistinctExcept(a + b, seen) == DistinctExcept(a, seen) + DistinctExcept(b, seen + Elements(a))
  {
    if a == [] {
      assert a + b == b;
      assert Elements(a) == {};
      assert seen + Elements(a) == seen;
    } else {
      var head := if a[0] in seen then [] else [a[0]];
      var seen' := seen + {a[0]};
      assert (a + b)[0] == a[0] && (a + b)[1..] == a[1..] + b;
      if a[0] in seen {
        assert seen' == seen;
        assert DistinctExcept(a + b, seen) == DistinctExcept(a[1..] + b, seen');
        assert DistinctExcept(a, seen) == DistinctExcept(a[1..], seen');
      } else {
        assert DistinctExcept(a + b, seen) == head + DistinctExcept(a[1..] + b, seen');
        assert DistinctExcept(a, seen) == head + DistinctExcept(a[1..], seen');
      }
      DistinctExceptAppend(a[1..], b, seen');
      assert seen' + Elements(a[1..]) == seen + Elements(a);
      var x, y := DistinctExcept(a[1..], seen'), DistinctExcept(b, seen' + Elements(a[1..]));
      assert head + (x + y) == (head + x) + y;
    }
  }

  /**
   * The order `Union` yields: the distinct elements of the first list in
   * their first-occurrence order, then the new elements of the second.
   */
  lemma UnionOrder<T(!new)>(a: seq<T>, b: seq<T>)
    ensures Union(a, b) == Distinct(a) + DistinctExcept(b, Elements(a))
  {
    DistinctExceptAppend(a, b, {});
    assert {} + Elements(a) == Elements(a);
  }
}
