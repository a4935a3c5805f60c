/**
 * The equivalence searches and the duplicate elimination of `SVGShape`, as
 * functions on shape lists. A list element is a shape or null. `eq(a, b)`
 * is `a.isGeometricallyEqualTo(b, epsilon)` for the caller's epsilon: an
 * arbitrary relation, neither assumed symmetric nor transitive.
 */
module Equivalence {
  import opened Outcomes

  /** `shapes[k]` is not null and is equivalent to `x` (with `shapes[k]` as the receiver). */
  predicate EquivalentAt<S>(shapes: seq<Option<S>>, k: int, x: S, eq: (S, S) -> bool)
    requires 0 <= k < |shapes|
  {
    shapes[k].Some? && eq(shapes[k].value, x)
  }

  /** `shape` is not null and some element of `shapes` is equivalent to it. */
  predicate Covered<S>(shapes: seq<Option<S>>, shape: Option<S>, eq: (S, S) -> bool)
  {
    shape.Some? && exists k :: 0 <= k < |shapes| && EquivalentAt(shapes, k, shape.value, eq)
  }

  predicate Ascending(idx: seq<int>)
  {
    forall a, b :: 0 <= a < b < |idx| ==> idx[a] < idx[b]
  }

  /** `r` is the subsequence of `s` at the indexes `idx`. */
  ghost predicate EmbedsAt<S>(r: seq<S>, s: seq<S>, idx: seq<int>)
  {
    && |idx| == |r|
    && forall j :: 0 <= j < |idx| ==> 0 <= idx[j] < |s| && r[j] == s[idx[j]]
  }

  predicate NullFree<S>(shapes: seq<Option<S>>)
  {
    forall k :: 0 <= k < |shapes| ==> shapes[k].Some?
  }

  /**
   * The value of `indexOfGeometricalEquivalent(shapes, shape, epsilon)`: the
   * smallest index of an element equivalent to `shape`, or -1 when `shape`
   * is null or nothing matches.
   */
  function FirstEquivalent<S>(shapes: seq<Option<S>>, shape: Option<S>, eq: (S, S) -> bool): (r: int)
    ensures -1 <= r < |shapes|
    ensures r == -1 <==> !Covered(shapes, shape, eq)
    ensures r >= 0 ==> shape.Some? && EquivalentAt(shapes, r, shape.value, eq)
    ensures r >= 0 ==> forall k :: 0 <= k < r ==> !EquivalentAt(shapes, k, shape.value, eq)
    decreases |shapes|
  {
    if shape.None? || shapes == [] then -1
    else if EquivalentAt(shapes, 0, shape.value, eq) then 0
    else
      var tail := shapes[1..];
      assert forall k :: 1 <= k < |shapes| ==>
        (EquivalentAt(shapes, k, shape.value, eq) <==> EquivalentAt(tail, k - 1, shape.value, eq));
      var r := FirstEquivalent(tail, shape, eq);
      if r == -1 then
        assert forall k :: 0 <= k < |shapes| ==> !EquivalentAt(shapes, k, shape.value, eq);
        -1
      else
        assert EquivalentAt(shapes, r + 1, shape.value, eq);
        r + 1
  }

  /**
   * The indexes, ascending, of the elements of `shapes` equivalent to `x`
   * (null elements never match).
   */
  function EquivalentIndexes<S>(shapes: seq<Option<S>>, x: S, eq: (S, S) -> bool): (r: seq<int>)
    ensures forall a, b :: 0 <= a < b < |r| ==> r[a] < r[b]
    ensures forall k :: k in r <==> 0 <= k < |shapes| && EquivalentAt(shapes, k, x, eq)
    decreases |shapes|
  {
    if shapes == [] then []
    else
      var n := |shapes| - 1;
      var front := shapes[..n];
      assert forall k :: 0 <= k < n ==> (EquivalentAt(front, k, x, eq) <==> EquivalentAt(shapes, k, x, eq));
      var r := EquivalentIndexes(front, x, eq);
      assert forall a :: 0 <= a < |r| ==> r[a] in r;
      if EquivalentAt(shapes, n, x, eq) then r + [n] else r
  }

  /**
   * The outcome of `indexesOfGeometricalEquivalent(shapes, shape, epsilon)`:
   * empty for a null list or a null shape; otherwise the scan dereferences
   * every element, so a null element throws.
   */
  function AllEquivalent<S>(shapes: Option<seq<Option<S>>>, shape: Option<S>, eq: (S, S) -> bool): (r: Result<seq<int>>)
    ensures r.Failed? <==> shapes.Some? && shape.Some? && exists k :: 0 <= k < |shapes.value| && shapes.value[k].None?
    ensures r.Failed? ==> r.exception == NullPointer
    ensures r.Ok? ==> Ascending(r.value)
    ensures r.Ok? ==> forall k :: k in r.value <==>
      shapes.Some? && shape.Some? && 0 <= k < |shapes.value| && EquivalentAt(shapes.value, k, shape.value, eq)
  {
    if shapes.None? || shape.None? then Ok([])
    else if !NullFree(shapes.value) then Failed(NullPointer)
    else Ok(EquivalentIndexes(shapes.value, shape.value, eq))
  }

  /**
   * On a null-free list, the first-match search finds nothing exactly when
   * the all-matches search is empty, and otherwise finds its first element.
   */
  lemma FirstIsHeadOfAll<S>(shapes: seq<Option<S>>, shape: Option<S>, eq: (S, S) -> bool)
    requires NullFree(shapes)
    ensures AllEquivalent(Some(shapes), shape, eq).Ok?
    ensures var all := AllEquivalent(Some(shapes), shape, eq).value;
      && (FirstEquivalent(shapes, shape, eq) == -1 <==> all == [])
      && (all != [] ==> FirstEquivalent(shapes, shape, eq) == all[0])
  {
    var first := FirstEquivalent(shapes, shape, eq);
    if shape.Some? {
      var all := EquivalentIndexes(shapes, shape.value, eq);
      if all != [] {
        assert all[0] in all;
        assert first in all;
        var j :| 0 <= j < |all| && all[j] == first;
      }
    }
  }

  /**
   * The list left by `eliminateGeometricalDuplicates`: scanning from the
   * last index down, an element is dropped when an element already kept
   * (one at a higher index) is equivalent to it (the kept one being the
   * receiver); the others are kept, in their order.
   */
  function Elim<S>(s: seq<Option<S>>, eq: (S, S) -> bool): (r: seq<Option<S>>)
    ensures |r| <= |s|
    decreases |s|
  {
    if s == [] then []
    else
      var kept := Elim(s[1..], eq);
      if Covered(kept, s[0], eq) then kept else [s[0]] + kept
  }

  /** The element at index `i` survives elimination. */
  predicate Survives<S>(s: seq<Option<S>>, i: int, eq: (S, S) -> bool)
    requires 0 <= i < |s|
  {
    !Covered(Elim(s[i + 1..], eq), s[i], eq)
  }

  /** The original indexes of the survivors, ascending. */
  function SurvivorIndexes<S>(s: seq<Option<S>>, eq: (S, S) -> bool): seq<int>
    decreases |s|
  {
    if s == [] then []
    else
      var rest := SurvivorIndexes(s[1..], eq);
      (if Covered(Elim(s[1..], eq), s[0], eq) then [] else [0]) + Shift(rest)
  }

  /** Every index plus one. */
  function Shift(a: seq<int>): (r: seq<int>)
    ensures |r| == |a|
    ensures forall j :: 0 <= j < |a| ==> r[j] == a[j] + 1
  {
    seq(|a|, j requires 0 <= j < |a| => a[j] + 1)
  }

  lemma ShiftMembers(a: seq<int>)
    ensures forall i :: i in Shift(a) <==> i - 1 in a
  {
    var r := Shift(a);
    forall i | i in r
      ensures i - 1 in a
    {
      var j :| 0 <= j < |r| && r[j] == i;
      assert a[j] == i - 1;
    }
    forall i | i - 1 in a
      ensures i in r
    {
      var j :| 0 <= j < |a| && a[j] == i - 1;
      assert r[j] == i;
    }
  }

  /** Survival in a suffix is survival at the shifted index. */
  lemma SurvivesInSuffix<S>(s: seq<Option<S>>, d: int, m: int, eq: (S, S) -> bool)
    requires 0 <= d <= |s| && 0 <= m < |s| - d
    ensures Survives(s[d..], m, eq) == Survives(s, d + m, eq)
  {
    assert s[d..][m + 1..] == s[d + m + 1..];
  }

  /**
   * Elimination only removes: the result is the subsequence of the input at
   * the survivor indexes.
   */
  lemma {:induction false} ElimIsSubsequence<S>(s: seq<Option<S>>, eq: (S, S) -> bool)
    ensures EmbedsAt(Elim(s, eq), s, SurvivorIndexes(s, eq))
    decreases |s|
  {
    if s != [] {
      var t := s[1..];
      ElimIsSubsequence(t, eq);
      var covered := Covered(Elim(t, eq), s[0], eq);
      assert Elim(s, eq) == if covered then Elim(t, eq) else [s[0]] + Elim(t, eq);
      assert SurvivorIndexes(s, eq) == (if covered then [] else [0]) + Shift(SurvivorIndexes(t, eq));
      assert s == [s[0]] + t;
      EmbedsStep(s[0], t, Elim(t, eq), SurvivorIndexes(t, eq), covered);
    }
  }

  /** A subsequence of `t` extends to one of `[x] + t`, with or without `x`. */
  lemma EmbedsStep<T>(x: T, t: seq<T>, kept: seq<T>, rest: seq<int>, covered: bool)
    requires EmbedsAt(kept, t, rest)
    ensures EmbedsAt(if covered then kept else [x] + kept, [x] + t, (if covered then [] else [0]) + Shift(rest))
  {
    var s := [x] + t;
    var r := if covered then kept else [x] + kept;
    var h := if covered then 0 else 1;
    var idx := (if covered then [] else [0]) + Shift(rest);
    forall j | 0 <= j < |idx|
      ensures 0 <= idx[j] < |s| && r[j] == s[idx[j]]
    {
      if j >= h {
        assert idx[j] == rest[j - h] + 1 && r[j] == kept[j - h] == t[rest[j - h]];
      }
    }
  }

  /** The survivor indexes are valid indexes, in ascending order. */
  lemma {:induction false} SurvivorIndexesAscending<S>(s: seq<Option<S>>, eq: (S, S) -> bool)
    ensures Ascending(SurvivorIndexes(s, eq))
    ensures forall j :: 0 <= j < |SurvivorIndexes(s, eq)| ==> 0 <= SurvivorIndexes(s, eq)[j] < |s|
    decreases |s|
  {
    if s != [] {
      var t := s[1..];
      SurvivorIndexesAscending(t, eq);
      var head := if Covered(Elim(t, eq), s[0], eq) then [] else [0];
      assert SurvivorIndexes(s, eq) == head + Shift(SurvivorIndexes(t, eq));
      ShiftAscending(head, SurvivorIndexes(t, eq), |t|);
    }
  }

  /** Shifting ascending indexes below `n` and putting an optional 0 first gives ascending indexes below `n + 1`. */
  lemma ShiftAscending(head: seq<int>, rest: seq<int>, n: int)
    requires head == [] || head == [0]
    requires n >= 0
    requires Ascending(rest) && forall j :: 0 <= j < |rest| ==> 0 <= rest[j] < n
    ensures Ascending(head + Shift(rest))
    ensures forall j :: 0 <= j < |head + Shift(rest)| ==> 0 <= (head + Shift(rest))[j] < n + 1
  {
    var idx := head + Shift(rest);
    forall j | 0 <= j < |idx|
      ensures 0 <= idx[j] < n + 1
    {
      if j >= |head| {
        assert idx[j] == rest[j - |head|] + 1;
      }
    }
    forall a, b | 0 <= a < b < |idx|
      ensures idx[a] < idx[b]
    {
      var h := |head|;
      assert idx[b] == rest[b - h] + 1 && 0 <= rest[b - h];
      if a >= h {
        assert idx[a] == rest[a - h] + 1 && rest[a - h] < rest[b - h];
      } else {
        assert idx[a] == 0;
      }
    }
  }

  /** The survivor indexes are exactly the indexes whose element survives. */
  lemma {:induction false} SurvivorIndexesExact<S>(s: seq<Option<S>>, eq: (S, S) -> bool)
    ensures forall i :: i in SurvivorIndexes(s, eq) <==> 0 <= i < |s| && Survives(s, i, eq)
    decreases |s|
  {
    if s != [] {
      var t := s[1..];
      SurvivorIndexesExact(t, eq);
      var rest := SurvivorIndexes(t, eq);
      var idx := SurvivorIndexes(s, eq);
      var head := if Covered(Elim(t, eq), s[0], eq) then [] else [0];
      assert idx == head + Shift(rest);
      forall i
        ensures i in idx <==> 0 <= i < |s| && Survives(s, i, eq)
      {
        if i == 0 {
          assert -1 !in rest;
          assert s[1..] == t;
        } else {
          ShiftMembers(rest);
          assert i in idx <==> i - 1 in rest;
          if 1 <= i < |s| {
            SurvivesInSuffix(s, 1, i - 1, eq);
          }
        }
      }
    }
  }

  /**
   * The element at index `i` survives exactly when no surviving element at a
   * higher index is equivalent to it. So of a group of equivalent elements
   * the one with the highest index survives; null elements always survive.
   */
  lemma SurvivalRule<S>(s: seq<Option<S>>, i: int, eq: (S, S) -> bool)
    requires 0 <= i < |s|
    ensures Survives(s, i, eq) <==> !LaterSurvivorEquivalent(s, i, eq)
  {
    if !Survives(s, i, eq) {
      CoveredByLaterSurvivor(s, i, eq);
    }
    if LaterSurvivorEquivalent(s, i, eq) {
      LaterSurvivorCovers(s, i, eq);
    }
  }

  /** Some surviving element after index `i` is equivalent to the non-null element at `i`. */
  predicate LaterSurvivorEquivalent<S>(s: seq<Option<S>>, i: int, eq: (S, S) -> bool)
    requires 0 <= i < |s|
  {
    s[i].Some? && exists k :: i < k < |s| && Survives(s, k, eq) && EquivalentAt(s, k, s[i].value, eq)
  }

  lemma CoveredByLaterSurvivor<S>(s: seq<Option<S>>, i: int, eq: (S, S) -> bool)
    requires 0 <= i < |s| && !Survives(s, i, eq)
    ensures LaterSurvivorEquivalent(s, i, eq)
  {
    var u := s[i + 1..];
    var kept := Elim(u, eq);
    var x := s[i].value;
    var j :| 0 <= j < |kept| && EquivalentAt(kept, j, x, eq);
    var m := KeptAt(u, j, eq);
    SurvivesInSuffix(s, i + 1, m, eq);
    assert u[m] == s[i + 1 + m];
    assert Survives(s, i + 1 + m, eq) && EquivalentAt(s, i + 1 + m, x, eq);
  }

  lemma LaterSurvivorCovers<S>(s: seq<Option<S>>, i: int, eq: (S, S) -> bool)
    requires 0 <= i < |s| && LaterSurvivorEquivalent(s, i, eq)
    ensures !Survives(s, i, eq)
  {
    var u := s[i + 1..];
    var kept := Elim(u, eq);
    var x := s[i].value;
    var k :| i < k < |s| && Survives(s, k, eq) && EquivalentAt(s, k, x, eq);
    SurvivesInSuffix(s, i + 1, k - i - 1, eq);
    var j := SurvivorKept(u, k - i - 1, eq);
    assert u[k - i - 1] == s[k];
    assert EquivalentAt(kept, j, x, eq);
  }

  /** Each kept element is a surviving element of the input; returns its index. */
  lemma KeptAt<S>(u: seq<Option<S>>, j: int, eq: (S, S) -> bool) returns (m: int)
    requires 0 <= j < |Elim(u, eq)|
    ensures 0 <= m < |u| && Survives(u, m, eq) && Elim(u, eq)[j] == u[m]
  {
    ElimIsSubsequence(u, eq);
    SurvivorIndexesExact(u, eq);
    m := SurvivorIndexes(u, eq)[j];
    assert m in SurvivorIndexes(u, eq);
  }

  /** Each surviving element of the input is kept; returns its index in the result. */
  lemma SurvivorKept<S>(u: seq<Option<S>>, m: int, eq: (S, S) -> bool) returns (j: int)
    requires 0 <= m < |u| && Survives(u, m, eq)
    ensures 0 <= j < |Elim(u, eq)| && Elim(u, eq)[j] == u[m]
  {
    ElimIsSubsequence(u, eq);
    SurvivorIndexesExact(u, eq);
    var idx := SurvivorIndexes(u, eq);
    assert m in idx;
    j :| 0 <= j < |idx| && idx[j] == m;
  }

  /** The last element of a non-empty list always survives, as the last element of the result. */
  lemma {:induction false} ElimKeepsLast<S>(s: seq<Option<S>>, eq: (S, S) -> bool)
    requires s != []
    ensures Elim(s, eq) != [] && Elim(s, eq)[|Elim(s, eq)| - 1] == s[|s| - 1]
    decreases |s|
  {
    if |s| > 1 {
      ElimKeepsLast(s[1..], eq);
    }
  }

  /** No non-null element of `r` has an equivalent after it. */
  predicate NoLaterEquivalent<S>(r: seq<Option<S>>, eq: (S, S) -> bool)
  {
    forall j, k :: 0 <= j < k < |r| && r[j].Some? ==> !EquivalentAt(r, k, r[j].value, eq)
  }

  /** No kept element has an equivalent among the kept elements after it. */
  lemma {:induction false} ElimNoLaterEquivalent<S>(s: seq<Option<S>>, eq: (S, S) -> bool)
    ensures NoLaterEquivalent(Elim(s, eq), eq)
    decreases |s|
  {
    if s != [] {
      var kept := Elim(s[1..], eq);
      ElimNoLaterEquivalent(s[1..], eq);
      var r := Elim(s, eq);
      if !Covered(kept, s[0], eq) {
        assert r == [s[0]] + kept;
        forall j, k | 0 <= j < k < |r| && r[j].Some?
          ensures !EquivalentAt(r, k, r[j].value, eq)
        {
          assert r[k] == kept[k - 1];
          if j > 0 {
            assert r[j] == kept[j - 1];
            assert !EquivalentAt(kept, k - 1, kept[j - 1].value, eq);
          } else {
            assert !EquivalentAt(kept, k - 1, s[0].value, eq);
          }
        }
      } else {
        assert r == kept;
      }
    }
  }

  /**
   * Of two equivalent shapes the later one is kept: the kept shape `b` is
   * the receiver of the comparison with the earlier `a`.
   */
  lemma LaterDuplicateSurvives<S>(a: S, b: S, eq: (S, S) -> bool)
    requires eq(b, a)
    ensures Elim([Some(a), Some(b)], eq) == [Some(b)]
  {
    assert [Some(a), Some(b)][1..] == [Some(b)] && [Some(b)][1..] == [];
    assert Elim([Some(b)], eq) == [Some(b)];
    assert EquivalentAt([Some(b)], 0, a, eq);
  }

  /** Eliminating twice removes nothing more than eliminating once. */
  lemma {:induction false} ElimIdempotent<S>(s: seq<Option<S>>, eq: (S, S) -> bool)
    ensures Elim(Elim(s, eq), eq) == Elim(s, eq)
    decreases |s|
  {
    if s != [] {
      var kept := Elim(s[1..], eq);
      ElimIdempotent(s[1..], eq);
      if !Covered(kept, s[0], eq) {
        assert ([s[0]] + kept)[1..] == kept;
      }
    }
  }
}
