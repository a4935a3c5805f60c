/**
 * `PathPrimitiveList`: the ordered, mutable list of primitives of one path
 * and its closed flag. Its queries are the functions of `PathQueries` applied
 * to `prims`; `size()` is `|prims|`.
 */
module PathPrimitives {
  import opened Outcomes
  import opened Primitives
  import opened PathQueries
  import opened Continuity
  import opened JavaLists

  class PathPrimitiveList {
    /** `primitiveList`, created empty on first use. */
    var prims: seq<Prim>
    var isClosed: bool

    constructor ()
      ensures prims == [] && !isClosed
    {
      prims := [];
      isClosed := false;
    }

    /** `setClosed(isClosed)`. */
    method SetClosed(closed: bool)
      modifies this
      ensures isClosed == closed && prims == old(prims)
    {
      isClosed := closed;
    }

    /**
     * `setFirstPoints()`: the continuity pass. On an empty list it reads
     * `get(nprim - 1)` and throws.
     */
    method SetFirstPoints() returns (outcome: Outcome)
      modifies this
      ensures isClosed == old(isClosed)
      ensures old(prims) == [] ==> prims == [] && outcome == Thrown(IndexOutOfBounds)
      ensures old(prims) != [] ==> prims == WithFirstPoints(old(prims), isClosed) && outcome == Normal
    {
      var n := |prims|;
      if n == 0 {
        // the loop below does nothing; primitiveList.get(-1) then throws
        return Thrown(IndexOutOfBounds);
      }
      var ps := prims;
      ghost var s := ps;
      var i := 1;
      while i < n
        invariant 1 <= i <= n && |ps| == n
        invariant forall k :: 0 <= k < n ==> ps[k].kind == s[k].kind && ps[k].coords == s[k].coords
        invariant forall k :: 1 <= k < i ==> ps[k] == Prim(s[k].kind, Some(LastCoord(s[k - 1])), s[k].coords)
        invariant forall k :: k == 0 || i <= k < n ==> ps[k] == s[k]
      {
        ps := ps[i := ps[i].(first := Some(LastCoord(ps[i - 1])))];
        i := i + 1;
      }
      if ps[n - 1].kind == Close {
        if n > 1 {
          ps := ps[0 := ps[0].(first := Some(LastCoord(ps[n - 2])))];
        }
      } else if isClosed {
        if n > 1 {
          ps := ps[0 := ps[0].(first := Some(LastCoord(ps[n - 1])))];
        }
      }
      assert ps[0] == Prim(s[0].kind, FirstPointAt(s, isClosed, 0), s[0].coords);
      FirstPointsPointwise(s, isClosed, ps);
      prims := ps;
      outcome := Normal;
    }

    /** `add(primitive)`: append, then re-run the continuity pass. */
    method Add(p: Prim)
      modifies this
      ensures isClosed == old(isClosed)
      ensures prims == WithFirstPoints(old(prims) + [p], isClosed)
    {
      prims := prims + [p];
      var outcome := SetFirstPoints();
    }

    /**
     * `add(List)` as written: its parameter shadows the field, so the
     * argument list is appended to itself and the stored list only gets the
     * continuity pass, which throws when the stored list is empty.
     */
    method AddList(list: ListRef<Prim>) returns (outcome: Outcome)
      modifies this, list
      ensures list.elems == old(list.elems) + old(list.elems)
      ensures isClosed == old(isClosed)
      ensures old(prims) == [] ==> prims == [] && outcome == Thrown(IndexOutOfBounds)
      ensures old(prims) != [] ==> prims == WithFirstPoints(old(prims), isClosed) && outcome == Normal
    {
      list.elems := list.elems + list.elems;
      outcome := SetFirstPoints();
    }

    /** `add(List)` as evidently intended: append all of `list`, then the continuity pass. */
    method AppendAll(list: seq<Prim>) returns (outcome: Outcome)
      modifies this
      ensures isClosed == old(isClosed)
      ensures old(prims) + list == [] ==> prims == [] && outcome == Thrown(IndexOutOfBounds)
      ensures old(prims) + list != [] ==>
        prims == WithFirstPoints(old(prims) + list, isClosed) && outcome == Normal
    {
      prims := prims + list;
      outcome := SetFirstPoints();
    }

    /** `remove(i)`: delete index `i` when it exists, else do nothing. */
    method Remove(i: int)
      modifies this
      ensures isClosed == old(isClosed)
      ensures 0 <= i < |old(prims)| ==> prims == old(prims)[..i] + old(prims)[i + 1..]
      ensures !(0 <= i < |old(prims)|) ==> prims == old(prims)
    {
      if Get(prims, i).Some? {
        prims := prims[..i] + prims[i + 1..];
      }
    }

    /**
     * `getUTurnList(angleEps)`: in ascending order, every `i` whose primitive
     * and the next are cubics that make a U-turn.
     */
    method GetUTurnList(eps: real, g: Geometry) returns (quadStarts: seq<int>)
      ensures forall a, b :: 0 <= a < b < |quadStarts| ==> quadStarts[a] < quadStarts[b]
      ensures forall i :: i in quadStarts <==> IsUTurnStart(prims, i, eps, g)
    {
      quadStarts := [];
      var i := 0;
      while i < |prims| - 1
        invariant 0 <= i <= |prims| && (|prims| > 0 ==> i <= |prims| - 1)
        invariant forall a, b :: 0 <= a < b < |quadStarts| ==> quadStarts[a] < quadStarts[b]
        invariant forall k :: k in quadStarts ==> 0 <= k < i
        invariant forall k :: 0 <= k < i ==> (k in quadStarts <==> IsUTurnStart(prims, k, eps, g))
      {
        if prims[i].kind == Cubic && prims[i + 1].kind == Cubic {
          if IsUTurn(prims, i, eps, g) {
            assert forall a :: 0 <= a < |quadStarts| ==> quadStarts[a] in quadStarts;
            quadStarts := quadStarts + [i];
          }
        }
        i := i + 1;
      }
    }

    /**
     * `replaceUTurnsByButt(quad)`: replace the cubics at `quad` and
     * `quad + 1` by one line to the end of `quad + 1`, then the continuity
     * pass. A missing `quad + 1` throws before any change and a non-cubic
     * there fails its cast; for `quad == -1` the first removal happens and
     * the second throws.
     */
    method ReplaceUTurnsByButt(quad: int) returns (outcome: Outcome)
      modifies this
      ensures isClosed == old(isClosed)
      ensures !(0 <= quad + 1 < |old(prims)|) ==> prims == old(prims) && outcome == Thrown(IndexOutOfBounds)
      ensures 0 <= quad + 1 < |old(prims)| && old(prims)[quad + 1].kind != Cubic ==>
        prims == old(prims) && outcome == Thrown(ClassCast)
      ensures quad == -1 && |old(prims)| > 0 && old(prims)[0].kind == Cubic ==>
        prims == old(prims)[1..] && outcome == Thrown(IndexOutOfBounds)
      ensures 0 <= quad && quad + 1 < |old(prims)| && old(prims)[quad + 1].kind == Cubic ==>
        prims == WithFirstPoints(ButtSpliced(old(prims), quad), isClosed) && outcome == Normal
    {
      if !(0 <= quad + 1 < |prims|) {
        return Thrown(IndexOutOfBounds);
      }
      var cubic1 := prims[quad + 1];
      if cubic1.kind != Cubic {
        return Thrown(ClassCast);
      }
      var linePrimitive := NewLinePrimitive(LastCoord(cubic1));
      ghost var s := prims;
      prims := prims[..quad + 1] + prims[quad + 2..];
      if quad < 0 {
        return Thrown(IndexOutOfBounds);
      }
      prims := prims[..quad] + prims[quad + 1..];
      prims := prims[..quad] + [linePrimitive] + prims[quad..];
      assert prims == ButtSpliced(s, quad);
      outcome := SetFirstPoints();
    }

    /** `replaceCoordinateArray(CubicPrimitive, i)`: copy the coordinates of `cubic` into a cubic at `i`, else nothing. */
    method ReplaceCubicCoords(cubic: Prim, i: int)
      modifies this
      ensures isClosed == old(isClosed)
      ensures 0 <= i < |old(prims)| && old(prims)[i].kind == Cubic ==>
        prims == old(prims)[i := old(prims)[i].(coords := cubic.coords)]
      ensures !(0 <= i < |old(prims)| && old(prims)[i].kind == Cubic) ==> prims == old(prims)
    {
      var p := Get(prims, i);
      if p.Some? && p.value.kind == Cubic {
        prims := prims[i := p.value.(coords := cubic.coords)];
      }
    }

    /** `replaceCoordinateArray(Real2Array, i)`: give a line at `i` the coordinates `coords`, else nothing. */
    method ReplaceLineCoords(coords: CoordArray, i: int)
      modifies this
      ensures isClosed == old(isClosed)
      ensures 0 <= i < |old(prims)| && old(prims)[i].kind == Line ==>
        prims == old(prims)[i := old(prims)[i].(coords := coords)]
      ensures !(0 <= i < |old(prims)| && old(prims)[i].kind == Line) ==> prims == old(prims)
    {
      var p := Get(prims, i);
      if p.Some? && p.value.kind == Line {
        prims := prims[i := p.value.(coords := coords)];
      }
    }

    /**
     * `createMeanLine(i, j)`: the mean of the lines at `i` and `j`; its
     * coordinates go to `i` and its reversed coordinates to `j`. When either
     * is not a line the mean is null and dereferencing it throws, before any
     * change.
     */
    method CreateMeanLine(i: int, j: int, g: Geometry) returns (r: Result<Prim>)
      modifies this
      ensures isClosed == old(isClosed)
      ensures CalculateMeanLine(old(prims), i, j, g).None? ==>
        r == Failed(NullPointer) && prims == old(prims)
      ensures CalculateMeanLine(old(prims), i, j, g).Some? ==>
        var mean := CalculateMeanLine(old(prims), i, j, g).value;
        && r == Ok(mean)
        && prims == old(prims)[i := old(prims)[i].(coords := mean.coords)]
                              [j := old(prims)[j].(coords := g.reverseCoords(mean))]
    {
      var line := CalculateMeanLine(prims, i, j, g);
      if line.None? {
        return Failed(NullPointer);
      }
      ReplaceLineCoords(line.value.coords, i);
      ReplaceLineCoords(g.reverseCoords(line.value), j);
      r := Ok(line.value);
    }
  }

  /**
   * `add(List)` on a fresh list with a one-primitive argument: the argument
   * comes back doubled, the stored list stays empty and the call throws.
   */
  method AddListDropsArgument(p: Prim) returns (stored: seq<Prim>, argument: seq<Prim>, outcome: Outcome)
    ensures stored == [] && argument == [p, p] && outcome == Thrown(IndexOutOfBounds)
  {
    var path := new PathPrimitiveList();
    var list := new ListRef([p]);
    outcome := path.AddList(list);
    stored, argument := path.prims, list.elems;
  }

  /** The intended append on a fresh list stores the argument and makes it continuous. */
  method AppendAllKeepsArgument(p: Prim, q: Prim) returns (stored: seq<Prim>, outcome: Outcome)
    ensures |stored| == 2 && outcome == Normal
    ensures stored[0].kind == p.kind && stored[0].coords == p.coords
    ensures stored[1].kind == q.kind && stored[1].coords == q.coords
    ensures stored[1].first == Some(LastCoord(p))
    ensures q.kind != Close ==> stored[0] == p
  {
    var path := new PathPrimitiveList();
    outcome := path.AppendAll([p, q]);
    stored := path.prims;
    assert [] + [p, q] == [p, q];
    FirstPointsRules([p, q], false);
  }
}
