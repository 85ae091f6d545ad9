/** The bottom-up merge sort of 3rd/uthash, as a function on sequences: sorted, stable, a permutation. */
module MergeSort {
  import opened Prelude

  type Compare<!T> = (T, T) -> int

  /** One merge, as the inner loop does it: on a tie the first run goes first. */
  function Merge<T>(p: seq<T>, q: seq<T>, cmp: Compare<T>): (r: seq<T>)
    ensures |r| == |p| + |q|
  {
    if p == [] then q
    else if q == [] then p
    else if cmp(p[0], q[0]) <= 0 then [p[0]] + Merge(p[1..], q, cmp)
    else [q[0]] + Merge(p, q[1..], cmp)
  }

  function Run<T>(s: seq<T>, k: nat): (r: seq<T>)
    ensures |r| == if k < |s| then k else |s|
  {
    if k < |s| then s[..k] else s
  }

  function After<T>(s: seq<T>, k: nat): (r: seq<T>)
    ensures |r| == if k < |s| then |s| - k else 0
  {
    if k < |s| then s[k..] else []
  }

  /** One pass: merge neighbouring runs of length `k`. */
  function Pass<T>(s: seq<T>, k: nat, cmp: Compare<T>): (r: seq<T>)
    requires 0 < k
    ensures |r| == |s|
    decreases |s|
  {
    if s == [] then []
    else
      var rest := After(s, k);
      Merge(Run(s, k), Run(rest, k), cmp) + Pass(After(rest, k), k, cmp)
  }

  /** All passes: the run length doubles until one merge was enough. */
  function Passes<T>(s: seq<T>, k: nat, cmp: Compare<T>): seq<T>
    requires 0 < k
    decreases |s| - k
  {
    if |s| <= 2 * k then Pass(s, k, cmp) else Passes(Pass(s, k, cmp), 2 * k, cmp)
  }

  // ---------- what the comparison must be ----------

  ghost predicate TotalPreorder<T>(s: seq<T>, cmp: Compare<T>)
  {
    && (forall x, y :: x in s && y in s ==> cmp(x, y) <= 0 || cmp(y, x) <= 0)
    && (forall x, y, z :: x in s && y in s && z in s && cmp(x, y) <= 0 && cmp(y, z) <= 0 ==> cmp(x, z) <= 0)
  }

  ghost predicate Sorted<T>(s: seq<T>, cmp: Compare<T>)
  {
    forall i, j :: 0 <= i < j < |s| ==> cmp(s[i], s[j]) <= 0
  }

  predicate Equal<T>(y: T, x: T, cmp: Compare<T>)
  {
    cmp(x, y) <= 0 && cmp(y, x) <= 0
  }

  /** The elements that compare equal to `x`, in their order. */
  function Equals<T>(s: seq<T>, x: T, cmp: Compare<T>): seq<T>
  {
    if s == [] then []
    else (if Equal(s[0], x, cmp) then [s[0]] else []) + Equals(s[1..], x, cmp)
  }

  /** What is kept are the elements equal to `x`, in their order. */
  lemma {:induction false} EqualsKeepsOrder<T>(s: seq<T>, x: T, cmp: Compare<T>, i: nat, j: nat)
    returns (a: nat, b: nat)
    requires i < j < |s| && Equal(s[i], x, cmp) && Equal(s[j], x, cmp)
    ensures a < b < |Equals(s, x, cmp)| && Equals(s, x, cmp)[a] == s[i] && Equals(s, x, cmp)[b] == s[j]
  {
    var rest := s[1..];
    var first: seq<T> := if Equal(s[0], x, cmp) then [s[0]] else [];
    assert Equals(s, x, cmp) == first + Equals(rest, x, cmp);
    if i > 0 {
      a, b := EqualsKeepsOrder(rest, x, cmp, i - 1, j - 1);
      a, b := a + |first|, b + |first|;
    } else {
      b := EqualsHolds(rest, x, cmp, j - 1);
      a, b := 0, b + 1;
    }
  }

  lemma {:induction false} EqualsHolds<T>(s: seq<T>, x: T, cmp: Compare<T>, i: nat) returns (a: nat)
    requires i < |s| && Equal(s[i], x, cmp)
    ensures a < |Equals(s, x, cmp)| && Equals(s, x, cmp)[a] == s[i]
  {
    if i == 0 {
      a := 0;
    } else {
      a := EqualsHolds(s[1..], x, cmp, i - 1);
      a := if Equal(s[0], x, cmp) then a + 1 else a;
    }
  }

  lemma {:induction false} EqualsIsDistinct<T>(s: seq<T>, x: T, cmp: Compare<T>)
    requires NoDuplicates(s)
    ensures NoDuplicates(Equals(s, x, cmp)) && forall y :: y in Equals(s, x, cmp) ==> y in s && Equal(y, x, cmp)
  {
    if s == [] {
    } else {
      assert NoDuplicates(s[1..]) && s[0] !in s[1..];
      EqualsIsDistinct(s[1..], x, cmp);
    }
  }

  /** If both sequences have the elements equal to each other in the same order, no such pair has
      changed places. */
  lemma EqualsMakesStable<T>(s: seq<T>, r: seq<T>, cmp: Compare<T>, i: nat, j: nat, k: nat, l: nat)
    requires NoDuplicates(s) && i < j < |s| && k < |r| && l < |r| && r[k] == s[i] && r[l] == s[j]
    requires Equal(s[i], s[j], cmp) && Equal(s[j], s[j], cmp)
    requires Equals(r, s[j], cmp) == Equals(s, s[j], cmp)
    ensures k < l
  {
    var x, e := s[j], Equals(s, s[j], cmp);
    EqualsIsDistinct(s, x, cmp);
    var a, b := EqualsKeepsOrder(s, x, cmp, i, j);
    if k > l {
      var d, c := EqualsKeepsOrder(r, x, cmp, l, k);
    }
  }

  lemma EqualsOfFirst<T>(y: T, s: seq<T>, x: T, cmp: Compare<T>)
    ensures Equals([y] + s, x, cmp) == (if cmp(x, y) <= 0 && cmp(y, x) <= 0 then [y] else []) + Equals(s, x, cmp)
  {
    assert ([y] + s)[1..] == s;
  }

  lemma {:induction false} EqualsConcat<T>(s: seq<T>, t: seq<T>, x: T, cmp: Compare<T>)
    ensures Equals(s + t, x, cmp) == Equals(s, x, cmp) + Equals(t, x, cmp)
  {
    if s == [] {
      assert s + t == t;
    } else {
      EqualsConcat(s[1..], t, x, cmp);
      EqualsOfFirst(s[0], s[1..] + t, x, cmp);
      EqualsOfFirst(s[0], s[1..], x, cmp);
      assert s + t == [s[0]] + (s[1..] + t) && s == [s[0]] + s[1..];
    }
  }

  lemma {:induction false} NoEquals<T>(s: seq<T>, x: T, cmp: Compare<T>)
    requires forall y :: y in s ==> !(cmp(x, y) <= 0 && cmp(y, x) <= 0)
    ensures Equals(s, x, cmp) == []
  {
    if s == [] {
    } else {
      NoEquals(s[1..], x, cmp);
      assert s[0] in s;
    }
  }

  // ---------- one merge ----------

  lemma ConsIsPermutation<T>(x: T, rest: seq<T>, merged: seq<T>, other: seq<T>)
    requires multiset(merged) == multiset(rest) + multiset(other)
    ensures multiset([x] + merged) == multiset([x] + rest) + multiset(other)
  {
  }

  lemma {:induction false} MergeIsPermutation<T>(p: seq<T>, q: seq<T>, cmp: Compare<T>)
    ensures multiset(Merge(p, q, cmp)) == multiset(p) + multiset(q)
    decreases |p| + |q|
  {
    if p == [] || q == [] {
    } else if cmp(p[0], q[0]) <= 0 {
      MergeIsPermutation(p[1..], q, cmp);
      ConsIsPermutation(p[0], p[1..], Merge(p[1..], q, cmp), q);
      assert p == [p[0]] + p[1..];
    } else {
      MergeIsPermutation(p, q[1..], cmp);
      ConsIsPermutation(q[0], q[1..], Merge(p, q[1..], cmp), p);
      assert q == [q[0]] + q[1..];
    }
  }

  lemma InMerge<T>(p: seq<T>, q: seq<T>, cmp: Compare<T>, x: T)
    ensures x in Merge(p, q, cmp) <==> x in p || x in q
  {
    MergeIsPermutation(p, q, cmp);
    assert x in Merge(p, q, cmp) <==> x in multiset(Merge(p, q, cmp));
    assert x in p <==> x in multiset(p);
    assert x in q <==> x in multiset(q);
  }

  /** `x` comes before every element of `s`. */
  ghost predicate Below<T>(x: T, s: seq<T>, cmp: Compare<T>)
  {
    forall y :: y in s ==> cmp(x, y) <= 0
  }

  lemma SortedCons<T>(x: T, s: seq<T>, cmp: Compare<T>)
    requires Sorted(s, cmp) && Below(x, s, cmp)
    ensures Sorted([x] + s, cmp)
  {
  }

  lemma SortedTail<T>(s: seq<T>, cmp: Compare<T>)
    requires s != [] && Sorted(s, cmp)
    ensures Sorted(s[1..], cmp) && Below(s[0], s[1..], cmp)
  {
  }

  lemma BelowMerge<T>(x: T, p: seq<T>, q: seq<T>, cmp: Compare<T>)
    requires Below(x, p, cmp) && Below(x, q, cmp)
    ensures Below(x, Merge(p, q, cmp), cmp)
  {
    forall y | y in Merge(p, q, cmp)
      ensures cmp(x, y) <= 0
    {
      InMerge(p, q, cmp, y);
    }
  }

  lemma BelowThrough<T>(x: T, s: seq<T>, cmp: Compare<T>, all: seq<T>)
    requires TotalPreorder(all, cmp) && x in all && (forall y :: y in s ==> y in all)
    requires s != [] && cmp(x, s[0]) <= 0 && Sorted(s, cmp)
    ensures Below(x, s, cmp)
  {
    forall y | y in s
      ensures cmp(x, y) <= 0
    {
      var i :| 0 <= i < |s| && s[i] == y;
      assert s[0] in s;
      if i > 0 {
        assert cmp(s[0], s[i]) <= 0;
      }
    }
  }

  lemma {:induction false} MergeIsSorted<T>(p: seq<T>, q: seq<T>, cmp: Compare<T>, all: seq<T>)
    requires TotalPreorder(all, cmp) && (forall x :: x in p || x in q ==> x in all)
    requires Sorted(p, cmp) && Sorted(q, cmp)
    ensures Sorted(Merge(p, q, cmp), cmp)
    decreases |p| + |q|
  {
    if p == [] || q == [] {
    } else {
      var x, y := p[0], q[0];
      assert x in p && y in q;
      if cmp(x, y) <= 0 {
        SortedTail(p, cmp);
        MergeIsSorted(p[1..], q, cmp, all);
        BelowThrough(x, q, cmp, all);
        BelowMerge(x, p[1..], q, cmp);
        SortedCons(x, Merge(p[1..], q, cmp), cmp);
      } else {
        SortedTail(q, cmp);
        MergeIsSorted(p, q[1..], cmp, all);
        BelowThrough(y, p, cmp, all);
        BelowMerge(y, p, q[1..], cmp);
        SortedCons(y, Merge(p, q[1..], cmp), cmp);
      }
    }
  }

  lemma TakeFirstIsStable<T>(y: T, p: seq<T>, m: seq<T>, x: T, eq: seq<T>, cmp: Compare<T>)
    requires Equals(m, x, cmp) == Equals(p, x, cmp) + eq
    ensures Equals([y] + m, x, cmp) == Equals([y] + p, x, cmp) + eq
  {
    hide Equals;
    EqualsOfFirst(y, m, x, cmp);
    EqualsOfFirst(y, p, x, cmp);
    var first: seq<T> := if cmp(x, y) <= 0 && cmp(y, x) <= 0 then [y] else [];
    assert (first + Equals(p, x, cmp)) + eq == first + (Equals(p, x, cmp) + eq);
  }

  lemma TakeSecondIsStable<T>(p: seq<T>, q: seq<T>, m: seq<T>, x: T, cmp: Compare<T>)
    requires q != [] && Equals(m, x, cmp) == Equals(p, x, cmp) + Equals(q[1..], x, cmp)
    requires cmp(x, q[0]) <= 0 && cmp(q[0], x) <= 0 ==> Equals(p, x, cmp) == []
    ensures Equals([q[0]] + m, x, cmp) == Equals(p, x, cmp) + Equals(q, x, cmp)
  {
    EqualsOfFirst(q[0], m, x, cmp);
    EqualsOfFirst(q[0], q[1..], x, cmp);
    assert q == [q[0]] + q[1..];
  }

  lemma {:induction false} MergeIsStable<T>(p: seq<T>, q: seq<T>, x: T, cmp: Compare<T>, all: seq<T>)
    requires TotalPreorder(all, cmp) && x in all && (forall y :: y in p || y in q ==> y in all)
    requires Sorted(p, cmp)
    ensures Equals(Merge(p, q, cmp), x, cmp) == Equals(p, x, cmp) + Equals(q, x, cmp)
    decreases |p| + |q|
  {
    if p == [] || q == [] {
      assert Equals([], x, cmp) == [] && Merge(p, q, cmp) == p + q;
    } else {
      assert p[0] in p && q[0] in q;
      if cmp(p[0], q[0]) <= 0 {
        SortedTail(p, cmp);
        MergeIsStable(p[1..], q, x, cmp, all);
        TakeFirstIsStable(p[0], p[1..], Merge(p[1..], q, cmp), x, Equals(q, x, cmp), cmp);
        assert p == [p[0]] + p[1..];
      } else {
        MergeIsStable(p, q[1..], x, cmp, all);
        if cmp(x, q[0]) <= 0 && cmp(q[0], x) <= 0 {
          LaterRunIsSmaller(p, q[0], x, cmp, all);
        }
        TakeSecondIsStable(p, q, Merge(p, q[1..], cmp), x, cmp);
      }
    }
  }

  /** If the second run's head is taken, nothing in the first run equals it. */
  lemma LaterRunIsSmaller<T>(p: seq<T>, y: T, x: T, cmp: Compare<T>, all: seq<T>)
    requires TotalPreorder(all, cmp) && x in all && y in all && (forall z :: z in p ==> z in all)
    requires Sorted(p, cmp) && p != [] && cmp(p[0], y) > 0
    requires cmp(x, y) <= 0 && cmp(y, x) <= 0
    ensures Equals(p, x, cmp) == []
  {
    forall z | z in p
      ensures !(cmp(x, z) <= 0 && cmp(z, x) <= 0)
    {
      var i :| 0 <= i < |p| && p[i] == z;
      assert p[0] in p;
      assert i > 0 ==> cmp(p[0], z) <= 0;
    }
    NoEquals(p, x, cmp);
  }

  // ---------- one pass, all passes ----------

  ghost predicate SortedRuns<T>(s: seq<T>, k: nat, cmp: Compare<T>)
    requires 0 < k
    decreases |s|
  {
    s == [] || (Sorted(Run(s, k), cmp) && SortedRuns(After(s, k), k, cmp))
  }

  ghost predicate Within<T>(s: seq<T>, all: seq<T>)
  {
    forall x :: x in s ==> x in all
  }

  lemma SplitsInTwoRuns<T>(s: seq<T>, k: nat)
    ensures s == Run(s, k) + (Run(After(s, k), k) + After(After(s, k), k))
  {
  }

  lemma {:induction false} PassIsPermutation<T>(s: seq<T>, k: nat, cmp: Compare<T>)
    requires 0 < k
    ensures multiset(Pass(s, k, cmp)) == multiset(s)
    decreases |s|
  {
    if s == [] {
    } else {
      var p, rest := Run(s, k), After(s, k);
      var q, more := Run(rest, k), After(rest, k);
      SplitsInTwoRuns(s, k);
      MergeIsPermutation(p, q, cmp);
      PassIsPermutation(more, k, cmp);
    }
  }

  lemma EqualsConcatThree<T>(p: seq<T>, q: seq<T>, r: seq<T>, x: T, cmp: Compare<T>)
    ensures Equals(p + (q + r), x, cmp) == Equals(p, x, cmp) + Equals(q, x, cmp) + Equals(r, x, cmp)
  {
    EqualsConcat(q, r, x, cmp);
    EqualsConcat(p, q + r, x, cmp);
  }

  lemma {:induction false} PassIsStable<T>(s: seq<T>, k: nat, x: T, cmp: Compare<T>, all: seq<T>)
    requires 0 < k && TotalPreorder(all, cmp) && x in all && Within(s, all) && SortedRuns(s, k, cmp)
    ensures Equals(Pass(s, k, cmp), x, cmp) == Equals(s, x, cmp)
    decreases |s|
  {
    if s == [] {
    } else {
      var p, rest := Run(s, k), After(s, k);
      var q, more := Run(rest, k), After(rest, k);
      SplitsInTwoRuns(s, k);
      MergeIsStable(p, q, x, cmp, all);
      PassIsStable(more, k, x, cmp, all);
      EqualsConcat(Merge(p, q, cmp), Pass(more, k, cmp), x, cmp);
      EqualsConcatThree(p, q, more, x, cmp);
    }
  }

  lemma {:induction false} PassDoublesRuns<T>(s: seq<T>, k: nat, cmp: Compare<T>, all: seq<T>)
    requires 0 < k && TotalPreorder(all, cmp) && Within(s, all) && SortedRuns(s, k, cmp)
    ensures SortedRuns(Pass(s, k, cmp), 2 * k, cmp)
    decreases |s|
  {
    if s == [] {
    } else {
      var p, rest := Run(s, k), After(s, k);
      var q, more := Run(rest, k), After(rest, k);
      SplitsInTwoRuns(s, k);
      MergeIsSorted(p, q, cmp, all);
      PassDoublesRuns(more, k, cmp, all);
      var m := Merge(p, q, cmp);
      assert Run(Pass(s, k, cmp), 2 * k) == m;
      assert After(Pass(s, k, cmp), 2 * k) == Pass(more, k, cmp);
    }
  }

  lemma SamePermutationWithin<T>(s: seq<T>, t: seq<T>, all: seq<T>)
    requires multiset(s) == multiset(t) && Within(s, all)
    ensures Within(t, all)
  {
    forall x | x in t
      ensures x in all
    {
      assert x in multiset(t);
      assert x in s;
    }
  }

  lemma {:induction false} PassesSort<T>(s: seq<T>, k: nat, x: T, cmp: Compare<T>, all: seq<T>)
    requires 0 < k && TotalPreorder(all, cmp) && x in all && Within(s, all) && SortedRuns(s, k, cmp)
    ensures var r := Passes(s, k, cmp);
      Sorted(r, cmp) && multiset(r) == multiset(s) && Equals(r, x, cmp) == Equals(s, x, cmp)
    decreases |s| - k
  {
    var r := Pass(s, k, cmp);
    PassIsPermutation(s, k, cmp);
    PassIsStable(s, k, x, cmp, all);
    PassDoublesRuns(s, k, cmp, all);
    if |s| <= 2 * k {
      assert Run(r, 2 * k) == r;
    } else {
      SamePermutationWithin(s, r, all);
      PassesSort(r, 2 * k, x, cmp, all);
    }
  }

  /** Whatever the comparison does, no element is lost or repeated. */
  lemma {:induction false} PassesIsPermutation<T>(s: seq<T>, k: nat, cmp: Compare<T>)
    requires 0 < k
    ensures multiset(Passes(s, k, cmp)) == multiset(s)
    decreases |s| - k
  {
    PassIsPermutation(s, k, cmp);
    if |s| > 2 * k {
      PassesIsPermutation(Pass(s, k, cmp), 2 * k, cmp);
    }
  }

  lemma {:induction false} SingletonRuns<T>(s: seq<T>, cmp: Compare<T>)
    ensures SortedRuns(s, 1, cmp)
    decreases |s|
  {
    if s == [] {
    } else {
      SingletonRuns(After(s, 1), cmp);
    }
  }

  /** Elements that compare equal stand in `r` in the order in which they stand in `s`. */
  ghost predicate KeepsTies<T>(s: seq<T>, r: seq<T>, cmp: Compare<T>)
  {
    forall i, j | 0 <= i < j < |s| && cmp(s[i], s[j]) <= 0 && cmp(s[j], s[i]) <= 0 ::
      forall k, l :: 0 <= k < |r| && 0 <= l < |r| && r[k] == s[i] && r[l] == s[j] ==> k < l
  }

  /** The same for elements that are all different, in terms of their places. */
  lemma SortKeepsTies<T>(s: seq<T>, cmp: Compare<T>)
    requires TotalPreorder(s, cmp) && s != [] && NoDuplicates(s)
    ensures KeepsTies(s, Passes(s, 1, cmp), cmp)
  {
    var r := Passes(s, 1, cmp);
    SortIsStable(s, cmp);
    forall i, j, k, l | 0 <= i < j < |s| && 0 <= k < |r| && 0 <= l < |r| && r[k] == s[i] && r[l] == s[j]
      && cmp(s[i], s[j]) <= 0 && cmp(s[j], s[i]) <= 0
      ensures k < l
    {
      assert s[j] in s;
      EqualsMakesStable(s, r, cmp, i, j, k, l);
    }
  }

  /** The sort is a sorted, stable permutation. */
  lemma SortIsStable<T>(s: seq<T>, cmp: Compare<T>)
    requires TotalPreorder(s, cmp) && s != []
    ensures var r := Passes(s, 1, cmp);
      && Sorted(r, cmp) && multiset(r) == multiset(s)
      && forall x :: x in s ==> Equals(r, x, cmp) == Equals(s, x, cmp)
  {
    SingletonRuns(s, cmp);
    PassesSort(s, 1, s[0], cmp, s);
    forall x | x in s
      ensures Equals(Passes(s, 1, cmp), x, cmp) == Equals(s, x, cmp)
    {
      PassesSort(s, 1, x, cmp, s);
    }
  }
}
