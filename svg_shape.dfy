/**
 * The static list algorithms of `SVGShape`: searching a shape list for
 * geometric equivalents, eliminating duplicates in place, selecting the
 * shapes of an element list, splicing a line list, and the marker
 * reference string. Shapes are values of a type parameter `S`; a Java
 * null is `None`.
 */
module SvgShapes {
  import opened Outcomes
  import opened Equivalence
  import opened JavaLists

  /**
   * `indexOfGeometricalEquivalent(shapes, shape, epsilon)`: scan from the
   * front, skipping null elements, and stop at the first equivalent.
   */
  method IndexOfGeometricalEquivalent<S>(shapes: seq<Option<S>>, shape: Option<S>, eq: (S, S) -> bool)
    returns (index: int)
    ensures index == FirstEquivalent(shapes, shape, eq)
  {
    index := -1;
    if shape.Some? {
      var i := 0;
      while i < |shapes|
        invariant 0 <= i <= |shapes|
        invariant forall k :: 0 <= k < i ==> !EquivalentAt(shapes, k, shape.value, eq)
      {
        var shape1 := shapes[i];
        if shape1.Some? && eq(shape1.value, shape.value) {
          assert EquivalentAt(shapes, i, shape.value, eq);
          index := i;
          break;
        }
        i := i + 1;
      }
    }
  }

  /**
   * `indexesOfGeometricalEquivalent(shapes, shape, epsilon)`: every index of
   * an equivalent, in order; the scan dereferences each element.
   */
  method IndexesOfGeometricalEquivalent<S>(shapes: Option<seq<Option<S>>>, shape: Option<S>, eq: (S, S) -> bool)
    returns (r: Result<seq<int>>)
    ensures r == AllEquivalent(shapes, shape, eq)
  {
    if shapes.None? || shape.None? {
      return Ok([]);
    }
    var list := shapes.value;
    var intArray: seq<int> := [];
    var i := 0;
    while i < |list|
      invariant 0 <= i <= |list|
      invariant forall k :: 0 <= k < i ==> list[k].Some?
      invariant intArray == EquivalentIndexes(list[..i], shape.value, eq)
    {
      if list[i].None? {
        return Failed(NullPointer);
      }
      assert list[..i + 1][..i] == list[..i];
      if eq(list[i].value, shape.value) {
        intArray := intArray + [i];
      }
      i := i + 1;
    }
    assert list[..i] == list;
    r := Ok(intArray);
  }

  /** Lists with the same members cover the same shapes. */
  lemma CoveredByMembers<S>(a: seq<Option<S>>, b: seq<Option<S>>, x: Option<S>, eq: (S, S) -> bool)
    requires forall y :: y in a <==> y in b
    ensures Covered(a, x, eq) == Covered(b, x, eq)
  {
    if Covered(a, x, eq) {
      var k :| 0 <= k < |a| && EquivalentAt(a, k, x.value, eq);
      assert a[k] in b;
      var m :| 0 <= m < |b| && b[m] == a[k];
      assert EquivalentAt(b, m, x.value, eq);
    }
    if Covered(b, x, eq) {
      var k :| 0 <= k < |b| && EquivalentAt(b, k, x.value, eq);
      assert b[k] in a;
      var m :| 0 <= m < |a| && a[m] == b[k];
      assert EquivalentAt(a, m, x.value, eq);
    }
  }

  /**
   * `eliminateGeometricalDuplicates(shapes, epsilon)`: walk the list from
   * the last index down, removing each element equivalent to one kept so
   * far and keeping the others.
   */
  method EliminateGeometricalDuplicates<S>(shapes: ListRef<Option<S>>, eq: (S, S) -> bool)
    modifies shapes
    ensures shapes.elems == Elim(old(shapes.elems), eq)
  {
    ghost var s := shapes.elems;
    var uniqueShapes: seq<Option<S>> := [];
    var i := |shapes.elems| - 1;
    while i >= 0
      invariant -1 <= i < |s|
      invariant shapes.elems == s[..i + 1] + Elim(s[i + 1..], eq)
      invariant forall y :: y in uniqueShapes <==> y in Elim(s[i + 1..], eq)
    {
      ghost var kept := Elim(s[i + 1..], eq);
      ElimUnfold(s, i, eq);
      SplitAt(s, i, kept);
      var shape := shapes.elems[i];
      CoveredByMembers(uniqueShapes, kept, shape, eq);
      var index := IndexOfGeometricalEquivalent(uniqueShapes, shape, eq);
      if index != -1 {
        shapes.elems := shapes.elems[..i] + shapes.elems[i + 1..];
      } else {
        uniqueShapes := uniqueShapes + [shape];
      }
      i := i - 1;
    }
    assert s[..0] == [] && s[0..] == s;
  }

  /** One step of the elimination scan, at index `i`. */
  lemma ElimUnfold<S>(s: seq<Option<S>>, i: int, eq: (S, S) -> bool)
    requires 0 <= i < |s|
    ensures Covered(Elim(s[i + 1..], eq), s[i], eq) ==> Elim(s[i..], eq) == Elim(s[i + 1..], eq)
    ensures !Covered(Elim(s[i + 1..], eq), s[i], eq) ==> Elim(s[i..], eq) == [s[i]] + Elim(s[i + 1..], eq)
  {
    assert s[i..][1..] == s[i + 1..];
  }

  /** The list `s[..i + 1] + rest`, with index `i` removed or not. */
  lemma SplitAt<T>(s: seq<T>, i: int, rest: seq<T>)
    requires 0 <= i < |s|
    ensures var a := s[..i + 1] + rest;
      && a[i] == s[i]
      && a[..i] + a[i + 1..] == s[..i] + rest
      && a == s[..i] + ([s[i]] + rest)
  {
    var a := s[..i + 1] + rest;
    assert a[..i] == s[..i];
    assert a[i + 1..] == rest;
  }

  /** An element of a generic element list: a shape or some other element. */
  datatype Element<S> = ShapeElement(shape: S) | OtherElement

  /** The shapes among `elements`, in order; null elements are not shapes. */
  function ShapesOf<S>(elements: seq<Option<Element<S>>>): (r: seq<S>)
    ensures |r| <= |elements|
    decreases |elements|
  {
    if elements == [] then []
    else
      var n := |elements| - 1;
      var front := elements[..n];
      assert elements == front + [elements[n]];
      match elements[n]
      case Some(ShapeElement(x)) => ShapesOf(front) + [x]
      case _ => ShapesOf(front)
  }

  /** `extractShapes(elements)`: collect the elements that are shapes. */
  method ExtractShapes<S>(elements: seq<Option<Element<S>>>) returns (shapeList: seq<S>)
    ensures shapeList == ShapesOf(elements)
  {
    shapeList := [];
    for i := 0 to |elements|
      invariant shapeList == ShapesOf(elements[..i])
    {
      assert elements[..i + 1][..i] == elements[..i];
      var element := elements[i];
      if element.Some? && element.value.ShapeElement? {
        shapeList := shapeList + [element.value.shape];
      }
    }
    assert elements[..|elements|] == elements;
  }

  /** A shape is selected exactly when it occurs in the element list. */
  lemma {:induction false} ShapesOfMembers<S>(elements: seq<Option<Element<S>>>, x: S)
    ensures x in ShapesOf(elements) <==> Some(ShapeElement(x)) in elements
    decreases |elements|
  {
    if elements != [] {
      var n := |elements| - 1;
      ShapesOfMembers(elements[..n], x);
      assert elements == elements[..n] + [elements[n]];
    }
  }

  /** Selecting shapes distributes over concatenation, so it keeps their order. */
  lemma {:induction false} ShapesOfConcat<S>(a: seq<Option<Element<S>>>, b: seq<Option<Element<S>>>)
    ensures ShapesOf(a + b) == ShapesOf(a) + ShapesOf(b)
    decreases |b|
  {
    if b != [] {
      var n := |b| - 1;
      ShapesOfConcat(a, b[..n]);
      assert (a + b)[..|a + b| - 1] == a + b[..n];
      assert (a + b)[|a + b| - 1] == b[n];
    } else {
      assert a + b == a;
    }
  }

  /**
   * `replaceLineAndCloseUp(iline, newLine, lineListNew)`: put `newLine` at
   * `iline` and remove the line after it. A missing `iline` throws before
   * any change; a missing `iline + 1` throws after the first write.
   */
  method ReplaceLineAndCloseUp<L>(iline: int, newLine: L, lines: ListRef<L>) returns (outcome: Outcome)
    modifies lines
    ensures !(0 <= iline < |old(lines.elems)|) ==>
      lines.elems == old(lines.elems) && outcome == Thrown(IndexOutOfBounds)
    ensures 0 <= iline == |old(lines.elems)| - 1 ==>
      lines.elems == old(lines.elems)[iline := newLine] && outcome == Thrown(IndexOutOfBounds)
    ensures 0 <= iline < |old(lines.elems)| - 1 ==>
      && lines.elems == old(lines.elems)[..iline] + [newLine] + old(lines.elems)[iline + 2..]
      && |lines.elems| == |old(lines.elems)| - 1
      && outcome == Normal
  {
    if !(0 <= iline < |lines.elems|) {
      return Thrown(IndexOutOfBounds);
    }
    lines.elems := lines.elems[iline := newLine];
    if iline + 1 >= |lines.elems| {
      return Thrown(IndexOutOfBounds);
    }
    lines.elems := lines.elems[..iline + 1] + lines.elems[iline + 2..];
    outcome := Normal;
  }

  /** The text string concatenation gives for a possibly null id: the id, or `null`. */
  function IdText(id: Option<string>): string
  {
    if id.Some? then id.value else "null"
  }

  /**
   * `makeUrlRef(id)`: the `url(#id)` reference, which reads back as the id;
   * string concatenation renders null as `null`.
   */
  function MakeUrlRef(id: Option<string>): (r: string)
    ensures UrlRefId(r) == Some(IdText(id))
  {
    var r := "url(#" + IdText(id) + ")";
    assert r[..5] == "url(#" && r[5..|r| - 1] == IdText(id);
    r
  }

  /** The id a `url(#...)` reference names, or `None` for any other string. */
  function UrlRefId(ref: string): Option<string>
  {
    if |ref| >= 6 && ref[..5] == "url(#" && ref[|ref| - 1] == ')' then Some(ref[5..|ref| - 1]) else None
  }

  /** Every string that reads as a reference is the reference made for what it names. */
  lemma UrlRefExact(ref: string)
    requires UrlRefId(ref).Some?
    ensures MakeUrlRef(UrlRefId(ref)) == ref
  {
    var text := UrlRefId(ref).value;
    assert ref == ref[..5] + text + [ref[|ref| - 1]];
  }

  /** Distinct ids give distinct references, but a null id and the id `null` give the same one. */
  lemma UrlRefCollisions(a: string, b: string)
    ensures MakeUrlRef(Some(a)) == MakeUrlRef(Some(b)) <==> a == b
    ensures MakeUrlRef(None) == MakeUrlRef(Some("null"))
  {
  }
}
