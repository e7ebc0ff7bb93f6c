/** The ordering step of `expressions`: a stable sort of the expression strings
    by the number of `/` they contain. An expression with more `/` is applied
    later, and expressions with the same count keep their discovery order; the
    count covers the whole expression, so an expression from a deeper declaration
    file can still come first. Python's `list.sort` is stable, and a
    stable sort has only one possible result (`StableSortIsUnique`); insertion
    sort is used here to compute it. */
module DepthSort {
  import Text

  /** The sort key of line 61 of globber.py: the count of `/` in an expression. */
  function Depth(e: string): nat {
    Text.Count(e, '/')
  }

  /** Non-decreasing depth from left to right. */
  ghost predicate Sorted(s: seq<string>) {
    forall i, j :: 0 <= i < j < |s| ==> Depth(s[i]) <= Depth(s[j])
  }

  /** The elements of `s` whose depth is `k`, in their order in `s`. Two
      sequences with the same `Filter` for every depth hold the equal-key
      elements in the same relative order. */
  function Filter(s: seq<string>, k: nat): seq<string> {
    if s == [] then []
    else Filter(s[..|s| - 1], k) + (if Depth(s[|s| - 1]) == k then [s[|s| - 1]] else [])
  }

  /** Places `x` after every element of `s` whose depth does not exceed its own,
      scanning from the right, as the inner loop of the insertion sort does. */
  function Insert(s: seq<string>, x: string): seq<string> {
    if s == [] then [x]
    else if Depth(s[|s| - 1]) > Depth(x) then Insert(s[..|s| - 1], x) + [s[|s| - 1]]
    else s + [x]
  }

  /** The result of sorting `s` stably by depth. */
  function SortedByDepth(s: seq<string>): seq<string> {
    if s == [] then []
    else Insert(SortedByDepth(s[..|s| - 1]), s[|s| - 1])
  }

  /** Inserting adds `x` and loses nothing. */
  lemma {:induction false} InsertPermutes(s: seq<string>, x: string)
    ensures multiset(Insert(s, x)) == multiset(s) + multiset{x}
    decreases |s|
  {
    if s != [] {
      var s', l := s[..|s| - 1], s[|s| - 1];
      assert s == s' + [l];
      if Depth(l) > Depth(x) {
        InsertPermutes(s', x);
      }
    }
  }

  /** The sorted result is a permutation of the input. */
  lemma {:induction false} SortPermutes(s: seq<string>)
    ensures multiset(SortedByDepth(s)) == multiset(s)
    decreases |s|
  {
    if s != [] {
      var s', l := s[..|s| - 1], s[|s| - 1];
      assert s == s' + [l];
      SortPermutes(s');
      InsertPermutes(SortedByDepth(s'), l);
    }
  }

  lemma {:induction false} FilterAppend(a: seq<string>, b: seq<string>, k: nat)
    ensures Filter(a + b, k) == Filter(a, k) + Filter(b, k)
    decreases |b|
  {
    if b == [] {
      assert a + b == a;
    } else {
      var b' := b[..|b| - 1];
      assert (a + b)[..|a + b| - 1] == a + b';
      FilterAppend(a, b', k);
    }
  }

  lemma FilterSingle(x: string, k: nat)
    ensures Filter([x], k) == if Depth(x) == k then [x] else []
  {
    assert [x][..0] == [];
  }

  /** A sequence with no element of depth `k` filters to nothing at `k`. */
  lemma {:induction false} FilterMissing(s: seq<string>, k: nat)
    requires forall i :: 0 <= i < |s| ==> Depth(s[i]) != k
    ensures Filter(s, k) == []
    decreases |s|
  {
    if s != [] {
      FilterMissing(s[..|s| - 1], k);
    }
  }

  /** The last element of `s` shows up among those of its depth. */
  lemma FilterHasLast(s: seq<string>)
    requires s != []
    ensures Filter(s, Depth(s[|s| - 1])) != []
  {
    FilterLast(s, Depth(s[|s| - 1]));
  }

  /** Inserting keeps every element of `s` in order and adds `x` among those of its depth last. */
  lemma {:induction false} InsertStable(s: seq<string>, x: string, k: nat)
    ensures Filter(Insert(s, x), k) == Filter(s, k) + Filter([x], k)
    decreases |s|
  {
    if s == [] {
      assert Insert(s, x) == [x];
    } else {
      var s', l := s[..|s| - 1], s[|s| - 1];
      var fl, fx := Filter([l], k), Filter([x], k);
      FilterSingle(l, k);
      FilterSingle(x, k);
      FilterLast(s, k);
      if Depth(l) > Depth(x) {
        var t := Insert(s', x);
        assert Insert(s, x) == t + [l];
        InsertStable(s', x, k);
        FilterAppend(t, [l], k);
        assert fl == [] || fx == [];
        calc {
          Filter(t + [l], k);
          Filter(t, k) + fl;
          Filter(s', k) + fx + fl;
          Filter(s', k) + fl + fx;
        }
      } else {
        assert Insert(s, x) == s + [x];
        FilterAppend(s, [x], k);
      }
    }
  }

  lemma {:induction false} InsertSorted(s: seq<string>, x: string)
    requires Sorted(s)
    ensures Sorted(Insert(s, x))
    decreases |s|
  {
    if s != [] {
      var s', l := s[..|s| - 1], s[|s| - 1];
      if Depth(l) > Depth(x) {
        InsertSorted(s', x);
        var t := Insert(s', x);
        InsertPermutes(s', x);
        forall i | 0 <= i < |t|
          ensures Depth(t[i]) <= Depth(l)
        {
          assert t[i] in multiset(t);
          if t[i] != x {
            assert t[i] in multiset(s');
            var m :| 0 <= m < |s'| && s'[m] == t[i];
            assert s[m] == t[i];
          }
        }
      }
    }
  }

  /** The sorted result is ordered by depth. */
  lemma {:induction false} SortIsSorted(s: seq<string>)
    ensures Sorted(SortedByDepth(s))
    decreases |s|
  {
    if s != [] {
      SortIsSorted(s[..|s| - 1]);
      InsertSorted(SortedByDepth(s[..|s| - 1]), s[|s| - 1]);
    }
  }

  /** The sort is stable: equal-depth elements keep their input order. */
  lemma {:induction false} SortIsStable(s: seq<string>, k: nat)
    ensures Filter(SortedByDepth(s), k) == Filter(s, k)
    decreases |s|
  {
    if s != [] {
      var s', l := s[..|s| - 1], s[|s| - 1];
      SortIsStable(s', k);
      InsertStable(SortedByDepth(s'), l, k);
      FilterSingle(l, k);
    }
  }

  /** The last elements of two depth-sorted sequences with equal filters have the same depth. */
  lemma LastDepthsAgree(r1: seq<string>, r2: seq<string>)
    requires r1 != [] && r2 != [] && Sorted(r1) && Sorted(r2)
    requires forall k: nat :: Filter(r1, k) == Filter(r2, k)
    ensures Depth(r1[|r1| - 1]) == Depth(r2[|r2| - 1])
  {
    var k1, k2 := Depth(r1[|r1| - 1]), Depth(r2[|r2| - 1]);
    if k1 < k2 {
      FilterHasLast(r2);
      FilterMissing(r1, k2);
      assert false;
    } else if k2 < k1 {
      FilterHasLast(r1);
      FilterMissing(r2, k1);
      assert false;
    }
  }

  lemma SnocInjective(a: seq<string>, x: string, b: seq<string>, y: string)
    requires a + [x] == b + [y]
    ensures a == b && x == y
  {
    assert a == (a + [x])[..|a|] && b == (b + [y])[..|b|];
    assert x == (a + [x])[|a|] && y == (b + [y])[|b|];
  }

  lemma FilterLast(s: seq<string>, k: nat)
    requires s != []
    ensures Filter(s, k) == Filter(s[..|s| - 1], k) + (if Depth(s[|s| - 1]) == k then [s[|s| - 1]] else [])
  {
  }

  /** Equal filters at every depth, with last elements of one depth, stay equal without those last elements. */
  lemma DropLastKeepsFilters(r1: seq<string>, r2: seq<string>, k: nat)
    requires r1 != [] && r2 != [] && Depth(r1[|r1| - 1]) == Depth(r2[|r2| - 1])
    requires Filter(r1, k) == Filter(r2, k)
    ensures Filter(r1[..|r1| - 1], k) == Filter(r2[..|r2| - 1], k)
    ensures Depth(r1[|r1| - 1]) == k ==> r1[|r1| - 1] == r2[|r2| - 1]
  {
    var f1, f2 := Filter(r1[..|r1| - 1], k), Filter(r2[..|r2| - 1], k);
    FilterLast(r1, k);
    FilterLast(r2, k);
    if Depth(r1[|r1| - 1]) == k {
      SnocInjective(f1, r1[|r1| - 1], f2, r2[|r2| - 1]);
    } else {
      assert Filter(r1, k) == f1 && Filter(r2, k) == f2;
    }
  }

  /** Two depth-sorted sequences holding the same elements of every depth in the
      same order are equal. */
  lemma {:induction false} SortedFiltersDetermine(r1: seq<string>, r2: seq<string>)
    requires Sorted(r1) && Sorted(r2)
    requires forall k: nat :: Filter(r1, k) == Filter(r2, k)
    ensures r1 == r2
    decreases |r1| + |r2|
  {
    if r1 == [] && r2 == [] {
    } else if r1 == [] || r2 == [] {
      var r := if r1 == [] then r2 else r1;
      FilterHasLast(r);
      assert false;
    } else {
      LastDepthsAgree(r1, r2);
      var r1', r2' := r1[..|r1| - 1], r2[..|r2| - 1];
      forall k: nat
        ensures Filter(r1', k) == Filter(r2', k)
      {
        DropLastKeepsFilters(r1, r2, k);
      }
      DropLastKeepsFilters(r1, r2, Depth(r1[|r1| - 1]));
      SortedFiltersDetermine(r1', r2');
      assert r1 == r1' + [r1[|r1| - 1]] && r2 == r2' + [r2[|r2| - 1]];
    }
  }

  /** Any arrangement of `s` that is sorted by depth and stable is the one
      `SortedByDepth` computes, so the model does not depend on which stable
      sort algorithm the source's runtime uses. */
  lemma StableSortIsUnique(s: seq<string>, r: seq<string>)
    requires Sorted(r)
    requires forall k: nat :: Filter(r, k) == Filter(s, k)
    ensures r == SortedByDepth(s)
  {
    SortIsSorted(s);
    forall k: nat
      ensures Filter(r, k) == Filter(SortedByDepth(s), k)
    {
      SortIsStable(s, k);
    }
    SortedFiltersDetermine(r, SortedByDepth(s));
  }

  /** Two expressions out of depth order are swapped. */
  lemma SortSwapsPair(a: string, b: string)
    requires Depth(a) > Depth(b)
    ensures SortedByDepth([a, b]) == [b, a]
  {
    assert [a, b][..1] == [a];
    assert [a][..0] == [];
    assert SortedByDepth([a]) == [a];
    assert Insert([a], b) == Insert([], b) + [a];
  }

  /** Two expressions already in depth order keep their order. */
  lemma SortKeepsPair(a: string, b: string)
    requires Depth(a) <= Depth(b)
    ensures SortedByDepth([a, b]) == [a, b]
  {
    assert [a, b][..1] == [a];
    assert [a][..0] == [];
    assert SortedByDepth([a]) == [a];
  }

  /** Where the inner loop of the insertion sort stops: `x` goes right after the
      last element of `p` that is not deeper than it, here at `j`. */
  lemma {:induction false} InsertAt(p: seq<string>, j: nat, x: string)
    requires j <= |p| && (j == 0 || Depth(p[j - 1]) <= Depth(x))
    requires forall m :: j <= m < |p| ==> Depth(p[m]) > Depth(x)
    ensures Insert(p, x) == p[..j] + [x] + p[j..]
    decreases |p|
  {
    if j < |p| {
      var p', l := p[..|p| - 1], p[|p| - 1];
      assert Depth(l) > Depth(x);
      assert Insert(p, x) == Insert(p', x) + [l];
      InsertAt(p', j, x);
      assert p'[..j] == p[..j];
      assert p[j..] == p'[j..] + [l];
    } else {
      assert p[..j] == p && p[j..] == [];
    }
  }

  /** Moves `a[i]` left past the deeper elements of the sorted prefix `a[..i]`. */
  method InsertInPlace(a: array<string>, i: nat)
    requires i < a.Length
    modifies a
    ensures a[..i + 1] == Insert(old(a[..i]), old(a[i]))
    ensures forall m :: i < m < a.Length ==> a[m] == old(a[m])
  {
    var x := a[i];
    ghost var p := a[..i];
    var j := i;
    while j > 0 && Depth(a[j - 1]) > Depth(x)
      invariant 0 <= j <= i
      invariant forall m :: 0 <= m < j ==> a[m] == p[m]
      invariant forall m :: j < m <= i ==> a[m] == p[m - 1]
      invariant forall m :: i < m < a.Length ==> a[m] == old(a[m])
      invariant forall m :: j <= m < i ==> Depth(p[m]) > Depth(x)
      decreases j
    {
      a[j] := a[j - 1];
      j := j - 1;
    }
    InsertAt(p, j, x);
    a[j] := x;
    Placed(a[..i + 1], p, j, x);
  }

  /** The array contents after the inner loop: `x` placed at `j` within `p`. */
  lemma Placed(q: seq<string>, p: seq<string>, j: nat, x: string)
    requires |q| == |p| + 1 && j <= |p| && q[j] == x
    requires forall m :: 0 <= m < j ==> q[m] == p[m]
    requires forall m :: j < m < |q| ==> q[m] == p[m - 1]
    ensures q == p[..j] + [x] + p[j..]
  {
    var placed := p[..j] + [x] + p[j..];
    forall m | 0 <= m < |q|
      ensures q[m] == placed[m]
    {
      if m > j {
        assert placed[m] == p[j..][m - j - 1];
      }
    }
  }

  lemma SortPrefixStep(s: seq<string>, i: nat)
    requires i < |s|
    ensures SortedByDepth(s[..i + 1]) == Insert(SortedByDepth(s[..i]), s[i])
  {
    assert s[..i + 1][..i] == s[..i];
  }

  /** `result.sort(key=lambda x: x.count("/"))`, in place: an insertion sort. */
  method SortInPlace(a: array<string>)
    modifies a
    ensures a[..] == SortedByDepth(old(a[..]))
  {
    ghost var orig := a[..];
    var i := 0;
    while i < a.Length
      invariant 0 <= i <= a.Length
      invariant a[..i] == SortedByDepth(orig[..i])
      invariant forall m :: i <= m < a.Length ==> a[m] == orig[m]
    {
      ghost var sorted := a[..i];
      assert a[i] == orig[i];
      InsertInPlace(a, i);
      SortPrefixStep(orig, i);
      i := i + 1;
    }
    assert orig[..a.Length] == orig;
  }
}
