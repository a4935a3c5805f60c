/**
 * The read-only queries of `PathPrimitiveList`, as functions of the list's
 * primitive sequence `s` (its `primitiveList`) and of the foreign geometry `g`.
 * Angles and tolerances are radians; `maxWidth` is a length.
 */
module PathQueries {
  import opened Outcomes
  import opened Primitives

  /** `get(i)`: the primitive at `i`, null for an index outside the list. */
  function Get(s: seq<Prim>, i: int): (r: Option<Prim>)
    ensures r.None? <==> i < 0 || i >= |s|
    ensures r.Some? ==> 0 <= i < |s| && r.value == s[i]
  {
    if i < 0 || i >= |s| then None else Some(s[i])
  }

  /** `getAngle(i)`: the normalised angle the primitive at `i` reports, null outside the list. */
  function GetAngle(s: seq<Prim>, i: int, g: Geometry): (r: Option<real>)
    ensures !(0 <= i < |s|) ==> r.None?
    ensures 0 <= i < |s| ==> r == g.angleOf(s[i])
  {
    if 0 <= i < |s| then g.angleOf(s[i]) else None
  }

  /**
   * `quadrantValue(i, angleEps)`: +1 or -1 for a cubic whose angle is within
   * `eps` of a right angle (+1 when the angle exceeds PI/4), 0 otherwise.
   */
  function QuadrantValue(s: seq<Prim>, i: int, eps: real, g: Geometry): (v: int)
    ensures v == -1 || v == 0 || v == 1
    ensures v != 0 <==>
      && 0 <= i < |s| && s[i].kind == Cubic && g.angleOf(s[i]).Some?
      && Abs(Abs(g.angleOf(s[i]).value) - PI / 2.0) < eps
    ensures v == 1 <==> v != 0 && 0 <= i < |s| && g.angleOf(s[i]).Some? && g.angleOf(s[i]).value > PI / 4.0
  {
    var angle := GetAngle(s, i, g);
    var prim := Get(s, i);
    if angle.Some? && prim.Some? && prim.value.kind == Cubic then
      var delta := Abs(Abs(angle.value) - PI / 2.0);
      if delta < eps then (if angle.value > PI / 4.0 then 1 else -1) else 0
    else 0
  }

  /**
   * `getLine(i)`: the segment from the end of primitive `i - 1` to the first
   * coordinate of primitive `i`, present only when `i > 0` and primitive `i` is a line.
   */
  function GetLine(s: seq<Prim>, i: int): (r: Option<Segment>)
    ensures r.Some? <==> 0 < i < |s| && s[i].kind == Line
    ensures r.Some? ==> 0 < i < |s| && r.value == Segment(LastCoord(s[i - 1]), FirstCoord(s[i]))
  {
    if i > 0 then
      match Get(s, i)
      case Some(p) =>
        if p.kind == Line then Some(Segment(LastCoord(Get(s, i - 1).value), FirstCoord(p))) else None
      case None => None
    else None
  }

  /** `isShort(i, maxWidth)`: primitive `i` is a line strictly shorter than `maxWidth`. */
  function IsShort(s: seq<Prim>, i: int, maxWidth: real, g: Geometry): (r: bool)
    ensures r <==>
      && 0 < i < |s| && s[i].kind == Line
      && g.length(Segment(LastCoord(s[i - 1]), FirstCoord(s[i]))) < maxWidth
  {
    var line := GetLine(s, i);
    if line.None? then false else g.length(line.value) < maxWidth
  }

  /** `isAntiParallel(i, j, angleEps)`: primitives `i` and `j` are lines and their segments are antiparallel. */
  function IsAntiParallel(s: seq<Prim>, i: int, j: int, eps: real, g: Geometry): (r: bool)
    ensures r <==>
      && 0 < i < |s| && s[i].kind == Line
      && 0 < j < |s| && s[j].kind == Line
      && g.antiParallel(Segment(LastCoord(s[i - 1]), FirstCoord(s[i])),
                        Segment(LastCoord(s[j - 1]), FirstCoord(s[j])), eps)
  {
    var linei := GetLine(s, i);
    var linej := GetLine(s, j);
    if linei.None? || linej.None? then false else g.antiParallel(linei.value, linej.value, eps)
  }

  /**
   * `isUTurn(i, angleEps)`: two quarter turns of the same sign at `i` and
   * `i + 1`, or antiparallel lines at `i - 1` and `i + 2`, or, at the
   * second-to-last index, antiparallel lines at `i - 1` and `1`.
   */
  function IsUTurn(s: seq<Prim>, i: int, eps: real, g: Geometry): (r: bool)
    ensures var turn := QuadrantValue(s, i, eps, g) + QuadrantValue(s, i + 1, eps, g);
      r <==> (turn == 2 || turn == -2)
             || IsAntiParallel(s, i - 1, i + 2, eps, g)
             || (i == |s| - 2 && IsAntiParallel(s, i - 1, 1, eps, g))
  {
    var turn := QuadrantValue(s, i, eps, g) + QuadrantValue(s, i + 1, eps, g);
    var uTurn := turn == 2 || turn == -2;
    var uTurn := uTurn || IsAntiParallel(s, i - 1, i + 2, eps, g);
    uTurn || (i == |s| - 2 && IsAntiParallel(s, i - 1, 1, eps, g))
  }

  /** `i` is reported by `getUTurnList`: primitives `i` and `i + 1` are cubics that make a U-turn. */
  predicate IsUTurnStart(s: seq<Prim>, i: int, eps: real, g: Geometry)
  {
    0 <= i < |s| - 1 && s[i].kind == Cubic && s[i + 1].kind == Cubic && IsUTurn(s, i, eps, g)
  }

  /** What a U-turn at `i` needs of the primitives around it. */
  lemma UTurnCauses(s: seq<Prim>, i: int, eps: real, g: Geometry)
    requires IsUTurn(s, i, eps, g)
    ensures
      || (&& 0 <= i && i + 1 < |s| && s[i].kind == Cubic && s[i + 1].kind == Cubic
          && QuadrantValue(s, i, eps, g) == QuadrantValue(s, i + 1, eps, g) != 0)
      || (2 <= i && i + 2 < |s| && s[i - 1].kind == Line && s[i + 2].kind == Line)
      || (2 <= i && i == |s| - 2 && s[i - 1].kind == Line && s[1].kind == Line)
  {
    var qi, qj := QuadrantValue(s, i, eps, g), QuadrantValue(s, i + 1, eps, g);
    if qi + qj == 2 || qi + qj == -2 {
      assert qi != 0 && qj != 0;
    }
  }

  /** Widening the tolerance keeps every quarter turn already detected, with its sign. */
  lemma QuadrantValueMonotone(s: seq<Prim>, i: int, eps1: real, eps2: real, g: Geometry)
    requires eps1 <= eps2
    requires QuadrantValue(s, i, eps1, g) != 0
    ensures QuadrantValue(s, i, eps2, g) == QuadrantValue(s, i, eps1, g)
  {
  }

  /**
   * Two cubics at +89 and -89 degrees, with a 5 degree tolerance, are quarter
   * turns of opposite sign: their values add up to 0, so the first U-turn
   * test does not fire for them.
   */
  lemma OppositeQuarterTurnsCancel(c0: Prim, c1: Prim)
    requires c0.kind == Cubic && c1.kind == Cubic && c0 != c1
    ensures var g := Geometry(p => if p == c0 then Some(89.0 * PI / 180.0) else Some(-89.0 * PI / 180.0),
                              (a, b, e) => false, l => 0.0, (l: Segment) => l.from, (a, b) => a, (p: Prim) => p.coords);
      && QuadrantValue([c0, c1], 0, 5.0 * PI / 180.0, g) == 1
      && QuadrantValue([c0, c1], 1, 5.0 * PI / 180.0, g) == -1
      && !IsUTurn([c0, c1], 0, 5.0 * PI / 180.0, g)
  {
  }

  /** `getLinePrimitive(i)`: the primitive at `i` when it is a line, else null. */
  function GetLinePrimitive(s: seq<Prim>, i: int): (r: Option<Prim>)
    ensures r.Some? <==> 0 <= i < |s| && s[i].kind == Line
    ensures r.Some? ==> 0 <= i < |s| && r.value == s[i]
  {
    var p := Get(s, i);
    if p.None? || p.value.kind != Line then None else p
  }

  /** `getCubicPrimitive(i)`: the primitive at `i` when it is a cubic, else null. */
  function GetCubicPrimitive(s: seq<Prim>, i: int): (r: Option<Prim>)
    ensures r.Some? <==> 0 <= i < |s| && s[i].kind == Cubic
    ensures r.Some? ==> 0 <= i < |s| && r.value == s[i]
  {
    var p := Get(s, i);
    if p.None? || p.value.kind != Cubic then None else p
  }

  /** `calculateMeanLine(i, j)`: the mean of the line primitives at `i` and `j`, null unless both are lines. */
  function CalculateMeanLine(s: seq<Prim>, i: int, j: int, g: Geometry): (r: Option<Prim>)
    ensures r.Some? <==> 0 <= i < |s| && s[i].kind == Line && 0 <= j < |s| && s[j].kind == Line
    ensures r.Some? ==> 0 <= i < |s| && 0 <= j < |s| && r.value == g.meanLine(s[i], s[j])
  {
    var linei := GetLinePrimitive(s, i);
    var linej := GetLinePrimitive(s, j);
    if linei.None? || linej.None? then None else Some(g.meanLine(linei.value, linej.value))
  }

  /** `createLineFromMidPoints(i, j)`: the segment joining the midpoints of the lines at `i` and `j`. */
  function CreateLineFromMidPoints(s: seq<Prim>, i: int, j: int, g: Geometry): (r: Option<Segment>)
    ensures r.Some? <==> 0 < i < |s| && s[i].kind == Line && 0 < j < |s| && s[j].kind == Line
    ensures r.Some? ==>
      && 0 < i < |s| && 0 < j < |s|
      && r.value == Segment(g.midPoint(Segment(LastCoord(s[i - 1]), FirstCoord(s[i]))),
                            g.midPoint(Segment(LastCoord(s[j - 1]), FirstCoord(s[j]))))
  {
    var linei := GetLine(s, i);
    var linej := GetLine(s, j);
    if linei.None? || linej.None? then None
    else Some(Segment(g.midPoint(linei.value), g.midPoint(linej.value)))
  }

  /** The first test of `createLineFromMLLLL`: lines 1 and 3 antiparallel, lines 2 and 4 short. */
  predicate FirstMLLLLBranch(s: seq<Prim>, eps: real, maxWidth: real, g: Geometry)
  {
    IsAntiParallel(s, 1, 3, eps, g) && IsShort(s, 2, maxWidth, g) && IsShort(s, 4, maxWidth, g)
  }

  /** The second test of `createLineFromMLLLL`: lines 2 and 4 antiparallel, lines 1 and 3 short. */
  predicate SecondMLLLLBranch(s: seq<Prim>, eps: real, maxWidth: real, g: Geometry)
  {
    IsAntiParallel(s, 2, 4, eps, g) && IsShort(s, 1, maxWidth, g) && IsShort(s, 3, maxWidth, g)
  }

  /**
   * `createLineFromMLLLL(angleEps, maxWidth)`: for a move followed by four
   * lines, try the first test (joining the midpoints of lines 2 and 4), then
   * the second (joining the midpoints of lines 1 and 3); null when neither
   * applies.
   */
  function CreateLineFromMLLLL(s: seq<Prim>, eps: real, maxWidth: real, g: Geometry): (r: Option<Segment>)
    ensures r.None? <==> !FirstMLLLLBranch(s, eps, maxWidth, g) && !SecondMLLLLBranch(s, eps, maxWidth, g)
  {
    if FirstMLLLLBranch(s, eps, maxWidth, g) then
      CreateLineFromMidPoints(s, 2, 4, g)
    else if SecondMLLLLBranch(s, eps, maxWidth, g) then
      CreateLineFromMidPoints(s, 1, 3, g)
    else
      None
  }

  /** A line is offered only when primitives 1 to 4 are all lines, and it joins two of their midpoints. */
  lemma MLLLLNeedsFourLines(s: seq<Prim>, eps: real, maxWidth: real, g: Geometry)
    requires CreateLineFromMLLLL(s, eps, maxWidth, g).Some?
    ensures |s| >= 5 && s[1].kind == Line && s[2].kind == Line && s[3].kind == Line && s[4].kind == Line
    ensures CreateLineFromMLLLL(s, eps, maxWidth, g) == CreateLineFromMidPoints(s, 2, 4, g)
         || CreateLineFromMLLLL(s, eps, maxWidth, g) == CreateLineFromMidPoints(s, 1, 3, g)
  {
  }

  /** When the first test applies, its line (midpoints of lines 2 and 4) is taken, whatever the second test says. */
  lemma MLLLLFirstBranchWins(s: seq<Prim>, eps: real, maxWidth: real, g: Geometry)
    requires FirstMLLLLBranch(s, eps, maxWidth, g)
    ensures CreateLineFromMLLLL(s, eps, maxWidth, g).Some?
    ensures CreateLineFromMLLLL(s, eps, maxWidth, g).value ==
      Segment(g.midPoint(Segment(LastCoord(s[1]), FirstCoord(s[2]))),
              g.midPoint(Segment(LastCoord(s[3]), FirstCoord(s[4]))))
  {
  }

  /** When only the second test applies, the line joins the midpoints of lines 1 and 3. */
  lemma MLLLLSecondBranch(s: seq<Prim>, eps: real, maxWidth: real, g: Geometry)
    requires !FirstMLLLLBranch(s, eps, maxWidth, g) && SecondMLLLLBranch(s, eps, maxWidth, g)
    ensures CreateLineFromMLLLL(s, eps, maxWidth, g).Some?
    ensures CreateLineFromMLLLL(s, eps, maxWidth, g).value ==
      Segment(g.midPoint(Segment(LastCoord(s[0]), FirstCoord(s[1]))),
              g.midPoint(Segment(LastCoord(s[2]), FirstCoord(s[3]))))
  {
  }

  /**
   * A failed shortness test is enough for no line: lines 1 and 3
   * antiparallel with line 2 not short, and lines 2 and 4 not antiparallel.
   */
  lemma MLLLLNoMatch(s: seq<Prim>, eps: real, maxWidth: real, g: Geometry)
    requires IsAntiParallel(s, 1, 3, eps, g) && !IsShort(s, 2, maxWidth, g) && !IsAntiParallel(s, 2, 4, eps, g)
    ensures CreateLineFromMLLLL(s, eps, maxWidth, g) == None
  {
  }
}
