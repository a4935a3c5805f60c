/**
 * Path primitives and the foreign geometry the path code calls.
 *
 * A primitive records the point it starts from (`first`, written by the
 * list's continuity pass and null on a freshly built primitive) and its
 * coordinate array (`coords`: the single end point of a move or line, the
 * two control points and the end point of a cubic).
 */
module Primitives {
  import opened Outcomes

  datatype Point = Point(x: real, y: real)

  /** A coordinate array; every primitive of the model has at least one point. */
  type CoordArray = s: seq<Point> | |s| > 0 witness [Point(0.0, 0.0)]

  /** The closed set of primitive kinds (the `instanceof` tests of the source). */
  datatype Kind = Move | Line | Cubic | Close

  datatype Prim = Prim(kind: Kind, first: Option<Point>, coords: CoordArray)

  /** `getFirstCoord`: the first point of the coordinate array. */
  function FirstCoord(p: Prim): Point
  {
    p.coords[0]
  }

  /** `getLastCoord`: the last point of the coordinate array. */
  function LastCoord(p: Prim): Point
  {
    p.coords[|p.coords| - 1]
  }

  /** `new LinePrimitive(end)`: a line to `end` whose first point is not yet set. */
  function NewLinePrimitive(end: Point): (p: Prim)
    ensures p.kind == Line && p.first.None? && LastCoord(p) == end
  {
    Prim(Line, None, [end])
  }

  /** An `SVGLine` between two points. */
  datatype Segment = Segment(from: Point, to: Point)

  /**
   * The floating-point geometry of classes outside the core, kept
   * uninterpreted:
   *  - angleOf: `SVGPathPrimitive.getAngle` with `normalizeToPlusMinusPI`
   *    applied (radians, or none when the primitive reports no angle);
   *  - antiParallel: `SVGLine.isAntiParallelTo(line, angleEps)`;
   *  - length, midPoint: `SVGLine.getLength`, `SVGLine.getMidPoint`;
   *  - meanLine: `LinePrimitive.calculateMeanLine(other)`;
   *  - reverseCoords: `LinePrimitive.getReverseCoordArray`.
   */
  datatype Geometry = Geometry(
    angleOf: Prim -> Option<real>,
    antiParallel: (Segment, Segment, real) -> bool,
    length: Segment -> real,
    midPoint: Segment -> Point,
    meanLine: (Prim, Prim) -> Prim,
    reverseCoords: Prim -> CoordArray)

  /** `Math.PI`. */
  const PI: real := 3.141592653589793

  /** `Math.abs` on doubles. */
  function Abs(x: real): (r: real)
    ensures r >= 0.0 && (r == x || r == -x)
  {
    if x < 0.0 then -x else x
  }
}
