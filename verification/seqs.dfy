/**
 * Sequence vocabulary shared by the poker evaluators: multiplicities (Python's `Counter`),
 * first-occurrence key order, sorting, filtering, `itertools.combinations` and the
 * lexicographic order Python uses for lists and tuples.
 */
module Seqs {

  /** How many times `x` occurs in `s` (the value `Counter(s)[x]`). */
  function Count<T(==)>(s: seq<T>, x: T): nat
  {
    multiset(s)[x]
  }

  /** Some value occurs exactly `n` times in `s`. */
  ghost predicate HasCount(s: seq<int>, n: nat)
  {
    exists k :: Count(s, k) == n
  }

  predicate NoDup<T(==)>(s: seq<T>)
  {
    forall i, j :: 0 <= i < j < |s| ==> s[i] != s[j]
  }

  /** The distinct elements of `s` in order of first occurrence: the key order of `Counter(s)`. */
  function Distinct<T(==,!new)>(s: seq<T>): (r: seq<T>)
    ensures forall x :: x in r <==> x in s
    ensures NoDup(r)
    decreases |s|
  {
    if s == [] then []
    else
      var d := Distinct(s[..|s| - 1]);
      assert s == s[..|s| - 1] + [s[|s| - 1]];
      if s[|s| - 1] in d then d else d + [s[|s| - 1]]
  }

  /** The keys of `Counter(s[..i])` are the first keys of `Counter(s)`. */
  lemma {:induction false} DistinctPrefix<T(!new)>(s: seq<T>, i: nat)
    requires i <= |s|
    ensures |Distinct(s[..i])| <= |Distinct(s)|
    ensures Distinct(s[..i]) == Distinct(s)[..|Distinct(s[..i])|]
    decreases |s| - i
  {
    if i < |s| {
      var t := s[..|s| - 1];
      DistinctPrefix(t, i);
      assert t[..i] == s[..i];
    } else {
      assert s[..i] == s;
    }
  }

  /**
   * Whatever occurs in `s` before the first occurrence of `Distinct(s)[k]` is one of the keys
   * listed before it.
   */
  lemma DistinctOrder<T(!new)>(s: seq<T>, k: nat, i: nat)
    requires k < |Distinct(s)| && i < |s| && s[i] == Distinct(s)[k]
    requires forall j :: 0 <= j < i ==> s[j] != s[i]
    ensures forall j :: 0 <= j < i ==> s[j] in Distinct(s)[..k]
  {
    DistinctPrefix(s, i);
    var d := Distinct(s[..i]);
    assert s[i] !in s[..i];
    assert s[i] !in d;
    assert |d| <= k;
    forall j | 0 <= j < i
      ensures s[j] in Distinct(s)[..k]
    {
      assert s[j] in s[..i];
      assert s[j] in d;
    }
  }

  predicate Ascending(s: seq<int>)
  {
    forall i, j :: 0 <= i < j < |s| ==> s[i] <= s[j]
  }

  predicate Descending(s: seq<int>)
  {
    forall i, j :: 0 <= i < j < |s| ==> s[i] >= s[j]
  }

  function InsertAscending(x: int, s: seq<int>): (r: seq<int>)
    requires Ascending(s)
    ensures Ascending(r)
    ensures multiset(r) == multiset(s) + multiset{x}
  {
    if s == [] || x <= s[0] then [x] + s
    else
      var t := InsertAscending(x, s[1..]);
      assert s == [s[0]] + s[1..];
      AllAtLeast(s[0], t, s[1..], x);
      ConsAscending(s[0], t);
      [s[0]] + t
  }

  /** A bound on every entry of `u` and on `x` bounds every entry of a permutation of `u + [x]`. */
  lemma AllAtLeast(lo: int, t: seq<int>, u: seq<int>, x: int)
    requires multiset(t) == multiset(u) + multiset{x}
    requires lo <= x && forall i :: 0 <= i < |u| ==> lo <= u[i]
    ensures forall k :: 0 <= k < |t| ==> lo <= t[k]
  {
    forall k | 0 <= k < |t| ensures lo <= t[k] {
      assert t[k] in multiset(t);
      if t[k] != x {
        assert t[k] in multiset(u);
      }
    }
  }

  lemma AllAtMost(hi: int, t: seq<int>, u: seq<int>, x: int)
    requires multiset(t) == multiset(u) + multiset{x}
    requires hi >= x && forall i :: 0 <= i < |u| ==> hi >= u[i]
    ensures forall k :: 0 <= k < |t| ==> hi >= t[k]
  {
    forall k | 0 <= k < |t| ensures hi >= t[k] {
      assert t[k] in multiset(t);
      if t[k] != x {
        assert t[k] in multiset(u);
      }
    }
  }

  lemma ConsAscending(a: int, t: seq<int>)
    requires Ascending(t) && forall k :: 0 <= k < |t| ==> a <= t[k]
    ensures Ascending([a] + t)
  {
    forall i, j | 0 <= i < j < |t| + 1 ensures ([a] + t)[i] <= ([a] + t)[j] {
      assert ([a] + t)[j] == t[j - 1];
      if i > 0 {
        assert ([a] + t)[i] == t[i - 1];
      }
    }
  }

  lemma ConsDescending(a: int, t: seq<int>)
    requires Descending(t) && forall k :: 0 <= k < |t| ==> a >= t[k]
    ensures Descending([a] + t)
  {
    forall i, j | 0 <= i < j < |t| + 1 ensures ([a] + t)[i] >= ([a] + t)[j] {
      assert ([a] + t)[j] == t[j - 1];
      if i > 0 {
        assert ([a] + t)[i] == t[i - 1];
      }
    }
  }

  /** `sorted(s)`: the ascending permutation of `s`. */
  function SortAscending(s: seq<int>): (r: seq<int>)
    ensures Ascending(r)
    ensures multiset(r) == multiset(s)
  {
    if s == [] then []
    else
      assert s == [s[0]] + s[1..];
      InsertAscending(s[0], SortAscending(s[1..]))
  }

  function InsertDescending(x: int, s: seq<int>): (r: seq<int>)
    requires Descending(s)
    ensures Descending(r)
    ensures multiset(r) == multiset(s) + multiset{x}
  {
    if s == [] || x >= s[0] then [x] + s
    else
      var t := InsertDescending(x, s[1..]);
      assert s == [s[0]] + s[1..];
      AllAtMost(s[0], t, s[1..], x);
      ConsDescending(s[0], t);
      [s[0]] + t
  }

  /** `sorted(s, reverse=True)`: the non-increasing permutation of `s`. */
  function SortDescending(s: seq<int>): (r: seq<int>)
    ensures Descending(r)
    ensures multiset(r) == multiset(s)
  {
    if s == [] then []
    else
      assert s == [s[0]] + s[1..];
      InsertDescending(s[0], SortDescending(s[1..]))
  }

  /** An ascending sequence is determined by its multiset: `sorted` has exactly one answer. */
  lemma {:induction false} AscendingUnique(a: seq<int>, b: seq<int>)
    requires Ascending(a) && Ascending(b)
    requires multiset(a) == multiset(b)
    ensures a == b
    decreases |a|
  {
    assert |b| == |multiset(b)| == |multiset(a)| == |a|;
    if a != [] {
      SameHeads(a, b);
      AscendingUnique(a[1..], b[1..]);
      assert a == [a[0]] + a[1..];
      assert b == [b[0]] + b[1..];
    }
  }

  /** Two ascending permutations of each other start alike and go on with permutations of each other. */
  lemma SameHeads(a: seq<int>, b: seq<int>)
    requires Ascending(a) && Ascending(b) && a != [] && b != []
    requires multiset(a) == multiset(b)
    ensures a[0] == b[0]
    ensures Ascending(a[1..]) && Ascending(b[1..])
    ensures multiset(a[1..]) == multiset(b[1..])
  {
    assert a[0] in multiset(a) && b[0] in multiset(b);
    AscendingHeadIsLeast(a, b[0]);
    AscendingHeadIsLeast(b, a[0]);
    TailMultiset(a);
    TailMultiset(b);
  }

  lemma TailMultiset(a: seq<int>)
    requires a != []
    ensures multiset(a[1..]) == multiset(a) - multiset{a[0]}
  {
    assert a == [a[0]] + a[1..];
  }

  lemma AscendingHeadIsLeast(a: seq<int>, x: int)
    requires Ascending(a) && x in multiset(a)
    ensures a[0] <= x
  {
    var i :| 0 <= i < |a| && a[i] == x;
  }

  /** The elements of `s` that satisfy `p`, in order. */
  function Filter<T(==,!new)>(s: seq<T>, p: T -> bool): (r: seq<T>)
    ensures |r| <= |s|
    ensures forall x :: x in r <==> x in s && p(x)
    decreases |s|
  {
    if s == [] then []
    else
      assert s == s[..|s| - 1] + [s[|s| - 1]];
      Filter(s[..|s| - 1], p) + (if p(s[|s| - 1]) then [s[|s| - 1]] else [])
  }

  lemma FilterNoDup<T(!new)>(s: seq<T>, p: T -> bool)
    requires NoDup(s)
    ensures NoDup(Filter(s, p))
    decreases |s|
  {
    if s != [] {
      FilterNoDup(s[..|s| - 1], p);
    }
  }

  /** `[f(x) for x in s]`: `f` applied to every element, in order. */
  function Map<A, B>(s: seq<A>, f: A --> B): (r: seq<B>)
    requires forall x :: x in s ==> f.requires(x)
    ensures |r| == |s|
    ensures forall i :: 0 <= i < |s| ==> r[i] == f(s[i])
  {
    seq(|s|, i requires 0 <= i < |s| => f(s[i]))
  }

  /** The largest element, `max(s)`. */
  function Max(s: seq<int>): (r: int)
    requires |s| > 0
    ensures r in s
    ensures forall x :: x in s ==> x <= r
  {
    if |s| == 1 then s[0]
    else
      var m := Max(s[1..]);
      assert s == [s[0]] + s[1..];
      if s[0] >= m then s[0] else m
  }

  /** `c` is obtained from `s` by deleting elements: the order of `s` is kept. */
  predicate IsSubsequence<T(==)>(c: seq<T>, s: seq<T>)
    decreases |s|
  {
    c == [] || (s != [] && ((c[0] == s[0] && IsSubsequence(c[1..], s[1..])) || IsSubsequence(c, s[1..])))
  }

  lemma {:induction false} SubsequenceIncluded<T>(c: seq<T>, s: seq<T>)
    requires IsSubsequence(c, s)
    ensures multiset(c) <= multiset(s)
    decreases |s|
  {
    if c != [] {
      assert s == [s[0]] + s[1..];
      if c[0] == s[0] && IsSubsequence(c[1..], s[1..]) {
        SubsequenceIncluded(c[1..], s[1..]);
        assert c == [c[0]] + c[1..];
      } else {
        SubsequenceIncluded(c, s[1..]);
      }
    }
  }

  function Prepend<T>(x: T, cs: seq<seq<T>>): (r: seq<seq<T>>)
    ensures |r| == |cs|
    ensures forall i :: 0 <= i < |r| ==> r[i] == [x] + cs[i]
  {
    seq(|cs|, i requires 0 <= i < |cs| => [x] + cs[i])
  }

  /**
   * `itertools.combinations(s, k)`: every choice of `k` positions of `s`, kept in their order,
   * listed in lexicographic order of the chosen positions.
   */
  function Combinations<T(==,!new)>(s: seq<T>, k: nat): (r: seq<seq<T>>)
    ensures forall c :: c in r ==> |c| == k && IsSubsequence(c, s)
    ensures |r| > 0 <==> k <= |s|
    decreases |s|
  {
    if k == 0 then [[]]
    else if s == [] then []
    else
      var withFirst := Prepend(s[0], Combinations(s[1..], k - 1));
      var withoutFirst := Combinations(s[1..], k);
      PrependSubsequences(s, Combinations(s[1..], k - 1), k);
      withFirst + withoutFirst
  }

  /** Putting the first element of `s` before subsequences of its tail gives subsequences of `s`. */
  lemma PrependSubsequences<T>(s: seq<T>, cs: seq<seq<T>>, k: nat)
    requires s != [] && k >= 1
    requires forall c :: c in cs ==> |c| == k - 1 && IsSubsequence(c, s[1..])
    ensures forall c :: c in Prepend(s[0], cs) ==> |c| == k && IsSubsequence(c, s)
  {
    var withFirst := Prepend(s[0], cs);
    forall c | c in withFirst ensures |c| == k && IsSubsequence(c, s) {
      var i :| 0 <= i < |withFirst| && withFirst[i] == c;
      assert c[1..] == cs[i];
    }
  }

  /** Every way of keeping `k` elements of `s` in their order is one of the combinations. */
  lemma {:induction false} CombinationsComplete<T(!new)>(s: seq<T>, k: nat, c: seq<T>)
    requires |c| == k && IsSubsequence(c, s)
    ensures c in Combinations(s, k)
    decreases |s|, 1
  {
    if k == 0 {
      assert c == [];
    } else {
      SubsequenceCases(c, s);
      if c[0] == s[0] && IsSubsequence(c[1..], s[1..]) {
        CompleteTakingHead(s, k, c);
      } else {
        CompleteSkippingHead(s, k, c);
      }
    }
  }

  lemma {:induction false} CompleteTakingHead<T(!new)>(s: seq<T>, k: nat, c: seq<T>)
    requires s != [] && k > 0 && |c| == k
    requires c[0] == s[0] && IsSubsequence(c[1..], s[1..])
    ensures c in Combinations(s, k)
    decreases |s|, 0
  {
    CombinationsComplete(s[1..], k - 1, c[1..]);
    CombinationsSplit(s, k);
    PrependMember(s[0], Combinations(s[1..], k - 1), c);
  }

  lemma {:induction false} CompleteSkippingHead<T(!new)>(s: seq<T>, k: nat, c: seq<T>)
    requires s != [] && k > 0 && |c| == k
    requires IsSubsequence(c, s[1..])
    ensures c in Combinations(s, k)
    decreases |s|, 0
  {
    CombinationsComplete(s[1..], k, c);
    CombinationsSplit(s, k);
  }

  /** A non-empty subsequence either starts with the head of `s` or lies in its tail. */
  lemma SubsequenceCases<T>(c: seq<T>, s: seq<T>)
    requires c != [] && IsSubsequence(c, s)
    ensures s != []
    ensures (c[0] == s[0] && IsSubsequence(c[1..], s[1..])) || IsSubsequence(c, s[1..])
  {
  }

  /** The combinations that take the head of `s`, then those that skip it. */
  lemma CombinationsSplit<T(!new)>(s: seq<T>, k: nat)
    requires s != [] && k > 0
    ensures Combinations(s, k) == Prepend(s[0], Combinations(s[1..], k - 1)) + Combinations(s[1..], k)
  {
  }

  lemma PrependMember<T>(x: T, cs: seq<seq<T>>, c: seq<T>)
    requires c != [] && c[0] == x && c[1..] in cs
    ensures c in Prepend(x, cs)
  {
    var i :| 0 <= i < |cs| && cs[i] == c[1..];
    assert Prepend(x, cs)[i] == c;
  }

  /** The binomial coefficient, by Pascal's rule. */
  function Choose(n: nat, k: nat): nat
  {
    if k == 0 then 1
    else if n == 0 then 0
    else Choose(n - 1, k - 1) + Choose(n - 1, k)
  }

  /** `combinations` yields one tuple per choice of `k` positions among `|s|`. */
  lemma {:induction false} CombinationsCount<T(!new)>(s: seq<T>, k: nat)
    ensures |Combinations(s, k)| == Choose(|s|, k)
    decreases |s|
  {
    if k == 0 {
      assert Combinations(s, k) == [[]];
    } else if s == [] {
      assert Combinations(s, k) == [];
    } else {
      var rest, without := Combinations(s[1..], k - 1), Combinations(s[1..], k);
      CombinationsCount(s[1..], k - 1);
      CombinationsCount(s[1..], k);
      CombinationsSplit(s, k);
      assert Choose(|s|, k) == Choose(|s[1..]|, k - 1) + Choose(|s[1..]|, k);
    }
  }

  /** Every element of a combination of `s` is an element of `s`. */
  lemma CombinationMembers<T(!new)>(s: seq<T>, k: nat, c: seq<T>)
    requires c in Combinations(s, k)
    ensures forall x :: x in c ==> x in s
  {
    SubsequenceIncluded(c, s);
    forall x | x in c ensures x in s {
      assert x in multiset(c);
    }
  }

  /** Python's `<` on lists of numbers: lexicographic, a proper prefix being smaller. */
  predicate LexLess(a: seq<int>, b: seq<int>)
    decreases |a|
  {
    if a == [] then b != []
    else if b == [] then false
    else if a[0] != b[0] then a[0] < b[0]
    else LexLess(a[1..], b[1..])
  }

  lemma {:induction false} LexIrreflexive(a: seq<int>)
    ensures !LexLess(a, a)
    decreases |a|
  {
    if a != [] {
      LexIrreflexive(a[1..]);
    }
  }

  lemma {:induction false} LexTransitive(a: seq<int>, b: seq<int>, c: seq<int>)
    requires LexLess(a, b) && LexLess(b, c)
    ensures LexLess(a, c)
    decreases |a|
  {
    if a != [] && a[0] == b[0] && b[0] == c[0] {
      LexTransitive(a[1..], b[1..], c[1..]);
    }
  }

  lemma {:induction false} LexTotal(a: seq<int>, b: seq<int>)
    requires a != b
    ensures LexLess(a, b) || LexLess(b, a)
    decreases |a|
  {
    if a != [] && b != [] && a[0] == b[0] {
      assert a == [a[0]] + a[1..] && b == [b[0]] + b[1..];
      LexTotal(a[1..], b[1..]);
    }
  }
}
