/**
 * The continuity pass of `PathPrimitiveList.setFirstPoints` and the list
 * splice of `replaceUTurnsByButt`, as functions on primitive sequences.
 */
module Continuity {
  import opened Outcomes
  import opened Primitives

  /**
   * The list after `setFirstPoints`: each primitive gets the first point
   * `FirstPointAt` assigns it; kinds and coordinate arrays never change.
   */
  function WithFirstPoints(s: seq<Prim>, closed: bool): (r: seq<Prim>)
    requires |s| > 0
    ensures |r| == |s|
    ensures forall i :: 0 <= i < |s| ==> r[i].kind == s[i].kind && r[i].coords == s[i].coords
  {
    seq(|s|, i requires 0 <= i < |s| => Prim(s[i].kind, FirstPointAt(s, closed, i), s[i].coords))
  }

  /**
   * The continuity rules the pass establishes: every primitive after the
   * first starts where its predecessor ends; with more than one primitive,
   * the first starts at the end of the primitive before a trailing
   * close-path, or else, when the path is closed, at the end of the last
   * primitive; otherwise the first primitive is untouched.
   */
  lemma FirstPointsRules(s: seq<Prim>, closed: bool)
    requires |s| > 0
    ensures var r := WithFirstPoints(s, closed);
      && (forall i :: 1 <= i < |r| ==> r[i].first == Some(LastCoord(r[i - 1])))
      && (|s| > 1 && s[|s| - 1].kind == Close ==> r[0].first == Some(LastCoord(r[|s| - 2])))
      && (|s| > 1 && s[|s| - 1].kind != Close && closed ==> r[0].first == Some(LastCoord(r[|s| - 1])))
      && (|s| == 1 || (s[|s| - 1].kind != Close && !closed) ==> r[0] == s[0])
  {
    var r := WithFirstPoints(s, closed);
    forall i | 1 <= i < |r|
      ensures r[i].first == Some(LastCoord(r[i - 1]))
    {
      assert r[i].first == Some(LastCoord(s[i - 1]));
      assert r[i - 1].coords == s[i - 1].coords;
    }
    assert r[0] == Prim(s[0].kind, WrapPoint(s, closed), s[0].coords);
  }

  /** The first point the pass gives primitive `i`. */
  function FirstPointAt(s: seq<Prim>, closed: bool, i: int): Option<Point>
    requires 0 <= i < |s|
  {
    if i == 0 then WrapPoint(s, closed) else Some(LastCoord(s[i - 1]))
  }

  /** The first point `setFirstPoints` gives the first primitive. */
  function WrapPoint(s: seq<Prim>, closed: bool): Option<Point>
    requires |s| > 0
  {
    var n := |s|;
    if s[n - 1].kind == Close then (if n > 1 then Some(LastCoord(s[n - 2])) else s[0].first)
    else if closed && n > 1 then Some(LastCoord(s[n - 1]))
    else s[0].first
  }

  /** The pass, primitive by primitive. */
  lemma FirstPointsPointwise(s: seq<Prim>, closed: bool, t: seq<Prim>)
    requires |s| > 0 && |t| == |s|
    requires forall k :: 0 <= k < |s| ==> t[k] == Prim(s[k].kind, FirstPointAt(s, closed, k), s[k].coords)
    ensures t == WithFirstPoints(s, closed)
  {
  }

  /** Running the continuity pass a second time changes nothing. */
  lemma FirstPointsIdempotent(s: seq<Prim>, closed: bool)
    requires |s| > 0
    ensures WithFirstPoints(WithFirstPoints(s, closed), closed) == WithFirstPoints(s, closed)
  {
    var r := WithFirstPoints(s, closed);
    var rr := WithFirstPoints(r, closed);
    FirstPointsRules(s, closed);
    forall i | 0 <= i < |r|
      ensures rr[i] == r[i]
    {
      assert rr[i].kind == r[i].kind && rr[i].coords == r[i].coords;
    }
  }

  /**
   * The continuity rules determine the pass: a list with the same kinds and
   * coordinates that obeys them (and keeps the first point where no rule
   * sets it) is the list the pass produces.
   */
  lemma FirstPointsUnique(s: seq<Prim>, closed: bool, t: seq<Prim>)
    requires |s| > 0 && |t| == |s|
    requires forall i :: 0 <= i < |s| ==> t[i].kind == s[i].kind && t[i].coords == s[i].coords
    requires forall i :: 1 <= i < |t| ==> t[i].first == Some(LastCoord(t[i - 1]))
    requires |s| > 1 && s[|s| - 1].kind == Close ==> t[0].first == Some(LastCoord(t[|s| - 2]))
    requires |s| > 1 && s[|s| - 1].kind != Close && closed ==> t[0].first == Some(LastCoord(t[|s| - 1]))
    requires |s| == 1 || (s[|s| - 1].kind != Close && !closed) ==> t[0].first == s[0].first
    ensures t == WithFirstPoints(s, closed)
  {
    var r := WithFirstPoints(s, closed);
    FirstPointsRules(s, closed);
    forall i | 0 <= i < |s|
      ensures t[i] == r[i]
    {
      if i > 0 {
        assert t[i].first == r[i].first;
      }
    }
  }

  /**
   * The list of `replaceUTurnsByButt(q)` before its continuity pass: the
   * cubics at `q` and `q + 1` replaced by one new line to the end of `q + 1`.
   */
  function ButtSpliced(s: seq<Prim>, q: int): (r: seq<Prim>)
    requires 0 <= q && q + 1 < |s|
  {
    s[..q] + [NewLinePrimitive(LastCoord(s[q + 1]))] + s[q + 2..]
  }

  /** Where each primitive of the splice comes from. */
  lemma ButtSplicedAt(s: seq<Prim>, q: int)
    requires 0 <= q && q + 1 < |s|
    ensures |ButtSpliced(s, q)| == |s| - 1
    ensures forall k :: 0 <= k < q ==> ButtSpliced(s, q)[k] == s[k]
    ensures ButtSpliced(s, q)[q] == NewLinePrimitive(LastCoord(s[q + 1]))
    ensures forall k :: q < k < |s| - 1 ==> ButtSpliced(s, q)[k] == s[k + 1]
  {
    var tail := s[q + 2..];
    assert forall k :: q < k < |s| - 1 ==> ButtSpliced(s, q)[k] == tail[k - q - 1];
  }

  /**
   * After the splice and the continuity pass the list is one shorter; the
   * primitives before `q` and after `q + 1` are kept in order; `q` is a line
   * from the end of `q - 1` to the end of the old `q + 1`; and the list is
   * continuous.
   */
  lemma ButtReplacement(s: seq<Prim>, q: int, closed: bool)
    requires 0 <= q && q + 1 < |s|
    ensures var r := WithFirstPoints(ButtSpliced(s, q), closed);
      && |r| == |s| - 1
      && (forall k :: 0 <= k < q ==> r[k].kind == s[k].kind && r[k].coords == s[k].coords)
      && r[q].kind == Line && r[q].coords == [LastCoord(s[q + 1])]
      && (0 < q ==> r[q].first == Some(LastCoord(s[q - 1])))
      && (forall k :: q < k < |r| ==> r[k].kind == s[k + 1].kind && r[k].coords == s[k + 1].coords)
      && (forall k :: 1 <= k < |r| ==> r[k].first == Some(LastCoord(r[k - 1])))
  {
    var t := ButtSpliced(s, q);
    var r := WithFirstPoints(t, closed);
    ButtSplicedAt(s, q);
    FirstPointsRules(t, closed);
    if 0 < q {
      assert r[q].first == Some(LastCoord(r[q - 1]));
    }
  }
}
