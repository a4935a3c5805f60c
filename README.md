# Path primitive lists and shape-list algorithms, modelled in Dafny

This project models two index-manipulating parts of the `svg` graphics library.

- **`PathPrimitiveList`**: the ordered, mutable list of the primitives of one SVG path (move, line, cubic, close-path) together with its closed flag. The model covers:
  - the continuity pass `setFirstPoints`, which starts each primitive where its predecessor ends and applies the wrap-around rule for a trailing close-path or a closed path;
  - the bounds-safe `get` and `remove`;
  - the quarter-turn classification `quadrantValue` and the U-turn scan `isUTurn` / `getUTurnList`;
  - the list surgery `replaceUTurnsByButt`, `replaceCoordinateArray` and `createMeanLine`;
  - the line queries `getLine`, `isShort`, `isAntiParallel`, `createLineFromMidPoints` and `createLineFromMLLLL`.
- **`SVGShape`'s static list algorithms**:
  - first-match and all-matches search for a geometric equivalent;
  - in-place duplicate elimination;
  - the shape filter `extractShapes`;
  - the line-list splice `replaceLineAndCloseUp`;
  - the marker reference string `makeUrlRef`.

Layout:

| file | module | contents |
|---|---|---|
| `outcomes.dfy` | `Outcomes` | `Option` (a Java null is `None`), the exceptions the core can raise, and `Outcome`/`Result` for normal or exceptional completion |
| `java_lists.dfy` | `JavaLists` | `ListRef`, a mutable `java.util.List` argument (an `ArrayList`) that a method edits in place; `addAll` of a list to itself doubles it, as `ArrayList` does |
| `primitives.dfy` | `Primitives` | points, primitive kinds, primitives, segments, and `Geometry`: the foreign floating-point geometry as uninterpreted function values |
| `path_queries.dfy` | `PathQueries` | the read-only queries of the path list, as functions of its primitive sequence |
| `continuity.dfy` | `Continuity` | the continuity pass and the U-turn splice as functions, with their lemmas |
| `path_primitive_list.dfy` | `PathPrimitives` | class `PathPrimitiveList`, with fields `prims` and `isClosed` and its state-changing methods |
| `equivalence.dfy` | `Equivalence` | the first-match and all-matches searches and the elimination result as functions, with their lemmas |
| `svg_shape.dfy` | `SvgShapes` | the loops of `SVGShape` as methods proved against those functions, plus `extractShapes`, `replaceLineAndCloseUp` and `makeUrlRef` |

## How the model relates to the code

Each method with a loop, and each method that runs the continuity pass, is proved against a specification function, and the properties are proved as lemmas about those functions. The other state-changing methods (`Remove`, `ReplaceCubicCoords`, `ReplaceLineCoords`, `CreateMeanLine`, `ReplaceLineAndCloseUp`) state their new state directly in terms of the old one.

- Every imperative loop of the source is a `while` or `for` loop:
  - `setFirstPoints`;
  - `getUTurnList`;
  - the two searches and the elimination of `SVGShape`;
  - `extractShapes`.

  For example, `SetFirstPoints` ensures `prims == WithFirstPoints(old(prims), isClosed)`, and `EliminateGeometricalDuplicates` ensures `shapes.elems == Elim(old(shapes.elems), eq)`.
- Java exceptions are modelled as results.
  - `setFirstPoints` on an empty list reads `get(nprim - 1)` and throws. The model returns `Thrown(IndexOutOfBounds)` on that path, so callers need not make the list non-empty.
  - `replaceUTurnsByButt` has three exceptional paths:
    - a missing `quad + 1` throws before any change;
    - a primitive there that is not a cubic fails its cast;
    - with `quad == -1`, the first removal takes effect before the second throws.
  - `createMeanLine` dereferences a null mean line when either index is not a line. The model gives `Failed(NullPointer)` with the list unchanged.
  - `replaceLineAndCloseUp` with a missing `iline + 1` writes `iline` and then throws.
  - `indexesOfGeometricalEquivalent` throws on a null element.
- Shape equivalence `a.isGeometricallyEqualTo(b, epsilon)` is an arbitrary relation `eq(a, b)`, with epsilon fixed by the caller. It is assumed neither symmetric nor transitive, and the receiver is always the element already in the list.

Two consequences of the code are worth stating, because a reader might expect otherwise.

- **Which duplicate survives.** `eliminateGeometricalDuplicates` scans from the last index down and drops an element equivalent to one already kept, so of each group of equivalent shapes the *highest*-index member survives.
  - `Equivalence.SurvivalRule` states the rule in general.
  - `Equivalence.LaterDuplicateSurvives` shows it on two elements.
- **No U-turn from ±89°.** Two cubics at +89° and −89° get quadrant values +1 and −1 from `quadrantValue`. Their sum is 0, so the double-quadrant test of `isUTurn` does not fire for them (`PathQueries.OppositeQuarterTurnsCancel`).

## Model

| member | source | states |
|---|---|---|
| Primitives.NewLinePrimitive | src/main/java/org/xmlcml/graphics/svg/path/PathPrimitiveList.java:169 | a new line primitive ends at the given point and has no first point yet |
| PathQueries.Get | src/main/java/org/xmlcml/graphics/svg/path/PathPrimitiveList.java:77-80 | null exactly when the index is outside the list, otherwise the element at that index |
| PathQueries.GetAngle | src/main/java/org/xmlcml/graphics/svg/path/PathPrimitiveList.java:131-140 | null outside the list, otherwise the normalised angle the primitive reports |
| PathQueries.QuadrantValue | src/main/java/org/xmlcml/graphics/svg/path/PathPrimitiveList.java:119-129 | always -1, 0 or 1; non-zero exactly for a cubic with an angle whose magnitude is within eps of PI/2; 1 exactly when it is non-zero and the angle exceeds PI/4 |
| PathQueries.QuadrantValueMonotone | src/main/java/org/xmlcml/graphics/svg/path/PathPrimitiveList.java:119-129 | widening the tolerance keeps every detected quarter turn and its sign |
| PathQueries.GetLine | src/main/java/org/xmlcml/graphics/svg/path/PathPrimitiveList.java:181-192 | present exactly when 0 < i < size and primitive i is a line; it then runs from the last coordinate of primitive i-1 to the first coordinate of primitive i |
| PathQueries.IsShort | src/main/java/org/xmlcml/graphics/svg/path/PathPrimitiveList.java:309-312 | true exactly when primitive i is a line (i > 0) whose segment is shorter than maxWidth; false whenever getLine is null |
| PathQueries.IsAntiParallel | src/main/java/org/xmlcml/graphics/svg/path/PathPrimitiveList.java:314-318 | true exactly when both indexes hold lines (index > 0) and their segments are antiparallel; false whenever either getLine is null |
| PathQueries.IsUTurn | src/main/java/org/xmlcml/graphics/svg/path/PathPrimitiveList.java:94-111 | true exactly when the two quadrant values sum to ±2, or lines i-1 and i+2 are antiparallel, or i is the second-to-last index and lines i-1 and 1 are antiparallel |
| PathQueries.UTurnCauses | src/main/java/org/xmlcml/graphics/svg/path/PathPrimitiveList.java:94-111 | a U-turn needs either two cubics with equal non-zero quadrant values, or lines at i-1 and i+2, or, at the end, lines at i-1 and 1 |
| PathQueries.OppositeQuarterTurnsCancel | src/main/java/org/xmlcml/graphics/svg/path/PathPrimitiveList.java:96-99 | cubics at +89° and -89° with a 5° tolerance have quadrant values 1 and -1 and make no U-turn |
| PathQueries.GetLinePrimitive | src/main/java/org/xmlcml/graphics/svg/path/PathPrimitiveList.java:255-259 | the element at i exactly when it exists and is a line, else null |
| PathQueries.GetCubicPrimitive | src/main/java/org/xmlcml/graphics/svg/path/PathPrimitiveList.java:268-272 | the element at i exactly when it exists and is a cubic, else null |
| PathQueries.CalculateMeanLine | src/main/java/org/xmlcml/graphics/svg/path/PathPrimitiveList.java:249-253 | present exactly when both indexes hold lines; it is then the mean of those two lines |
| PathQueries.CreateLineFromMidPoints | src/main/java/org/xmlcml/graphics/svg/path/PathPrimitiveList.java:302-307 | present exactly when both getLine results are; it then joins their midpoints |
| PathQueries.MLLLLNeedsFourLines | src/main/java/org/xmlcml/graphics/svg/path/PathPrimitiveList.java:292-300 | a result needs lines at 1, 2, 3 and 4 and is one of the two midpoint lines |
| PathQueries.MLLLLFirstBranchWins | src/main/java/org/xmlcml/graphics/svg/path/PathPrimitiveList.java:294-295 | when the (1,3) antiparallel branch applies, its line (midpoints of 2 and 4) is returned, whether or not the (2,4) branch also applies |
| PathQueries.CreateLineFromMLLLL | src/main/java/org/xmlcml/graphics/svg/path/PathPrimitiveList.java:292-300 | null exactly when neither test applies: the first is lines 1 and 3 antiparallel with lines 2 and 4 short, the second is lines 2 and 4 antiparallel with lines 1 and 3 short |
| PathQueries.MLLLLSecondBranch | src/main/java/org/xmlcml/graphics/svg/path/PathPrimitiveList.java:296-297 | when only the second test applies, the line joins the midpoints of lines 1 and 3 |
| PathQueries.MLLLLNoMatch | src/main/java/org/xmlcml/graphics/svg/path/PathPrimitiveList.java:292-300 | a failed shortness test is enough for null: lines 1 and 3 antiparallel but line 2 not short, and lines 2 and 4 not antiparallel |
| Continuity.WithFirstPoints | src/main/java/org/xmlcml/graphics/svg/path/PathPrimitiveList.java:50-65 | the pass keeps the length and every primitive's kind and coordinates; only first points change |
| Continuity.FirstPointsRules | src/main/java/org/xmlcml/graphics/svg/path/PathPrimitiveList.java:50-65 | each primitive after the first starts at its predecessor's last coordinate; with n > 1, the first starts at the end of n-2 after a trailing close-path, or else at the end of n-1 when closed; otherwise it is untouched |
| Continuity.FirstPointsPointwise | src/main/java/org/xmlcml/graphics/svg/path/PathPrimitiveList.java:53-64 | the loop's element-by-element writes followed by the wrap-around write produce the continuity pass |
| Continuity.FirstPointsIdempotent | src/main/java/org/xmlcml/graphics/svg/path/PathPrimitiveList.java:50-65 | running the continuity pass twice equals running it once |
| Continuity.FirstPointsUnique | src/main/java/org/xmlcml/graphics/svg/path/PathPrimitiveList.java:50-65 | any list with the same kinds and coordinates that obeys the continuity and wrap-around rules is the result of the pass |
| Continuity.ButtSplicedAt | src/main/java/org/xmlcml/graphics/svg/path/PathPrimitiveList.java:167-172 | the two removals and the insertion leave the prefix before q, a new line at q to the end of old q+1, and the old elements after q+1 shifted down by one |
| Continuity.ButtReplacement | src/main/java/org/xmlcml/graphics/svg/path/PathPrimitiveList.java:165-174 | after the splice and the pass: size drops by one; elements before q keep kinds and coordinates; q is a line ending at old q+1's last point and starting at the end of q-1; the old elements q+2.. shift down by one; continuity holds |
| PathPrimitives.PathPrimitiveList.constructor | src/main/java/org/xmlcml/graphics/svg/path/PathPrimitiveList.java:24-25 | a new list is empty and not closed |
| PathPrimitives.PathPrimitiveList.SetClosed | src/main/java/org/xmlcml/graphics/svg/path/PathPrimitiveList.java:142-144 | sets the flag and leaves the primitives alone |
| PathPrimitives.PathPrimitiveList.SetFirstPoints | src/main/java/org/xmlcml/graphics/svg/path/PathPrimitiveList.java:50-65 | on a non-empty list the new list is the continuity pass of the old one; on an empty list nothing changes and index-out-of-bounds is thrown |
| PathPrimitives.PathPrimitiveList.Add | src/main/java/org/xmlcml/graphics/svg/path/PathPrimitiveList.java:27-31 | the new list is the continuity pass of the old list with the primitive appended |
| PathPrimitives.PathPrimitiveList.AddList | src/main/java/org/xmlcml/graphics/svg/path/PathPrimitiveList.java:33-37 | as written: the argument list becomes itself twice over; the stored list only gets the continuity pass, which throws when it is empty |
| PathPrimitives.PathPrimitiveList.AppendAll | src/main/java/org/xmlcml/graphics/svg/path/PathPrimitiveList.java:33-37 | as intended: the stored list becomes the continuity pass of the old list followed by the argument |
| PathPrimitives.AddListDropsArgument | src/main/java/org/xmlcml/graphics/svg/path/PathPrimitiveList.java:33-37 | on a fresh list with a one-primitive argument, the stored list stays empty, the argument is doubled and the call throws |
| PathPrimitives.AppendAllKeepsArgument | src/main/java/org/xmlcml/graphics/svg/path/PathPrimitiveList.java:33-37 | the intended append on a fresh list stores both primitives with their kinds and coordinates, and the second starts where the first ends |
| PathPrimitives.PathPrimitiveList.Remove | src/main/java/org/xmlcml/graphics/svg/path/PathPrimitiveList.java:285-290 | out of range nothing changes; otherwise exactly index i is deleted and the others stay in order |
| PathPrimitives.PathPrimitiveList.GetUTurnList | src/main/java/org/xmlcml/graphics/svg/path/PathPrimitiveList.java:150-163 | strictly ascending; contains exactly the indexes i with cubics at i and i+1 that make a U-turn |
| PathPrimitives.PathPrimitiveList.ReplaceUTurnsByButt | src/main/java/org/xmlcml/graphics/svg/path/PathPrimitiveList.java:165-174 | a missing quad+1 throws with no change; a non-cubic at quad+1 fails its cast with no change; quad = -1 removes element 0 and then throws; otherwise the new list is the continuity pass of the splice |
| PathPrimitives.PathPrimitiveList.ReplaceCubicCoords | src/main/java/org/xmlcml/graphics/svg/path/PathPrimitiveList.java:213-220 | a cubic at i gets the given cubic's coordinates; on any other index or kind nothing changes |
| PathPrimitives.PathPrimitiveList.ReplaceLineCoords | src/main/java/org/xmlcml/graphics/svg/path/PathPrimitiveList.java:241-247 | a line at i gets the given coordinates; on any other index or kind nothing changes |
| PathPrimitives.PathPrimitiveList.CreateMeanLine | src/main/java/org/xmlcml/graphics/svg/path/PathPrimitiveList.java:261-266 | unless both indexes hold lines, a null-pointer failure with no change; otherwise it returns the mean line, i gets its coordinates and j its reversed coordinates |
| Equivalence.FirstEquivalent | src/main/java/org/xmlcml/graphics/svg/SVGShape.java:143-155 | -1 exactly when the shape is null or nothing matches; otherwise the index of a non-null match with no match before it |
| Equivalence.EquivalentIndexes | src/main/java/org/xmlcml/graphics/svg/SVGShape.java:179-189 | strictly ascending; contains exactly the indexes of non-null elements equivalent to the shape |
| Equivalence.AllEquivalent | src/main/java/org/xmlcml/graphics/svg/SVGShape.java:179-189 | for a null list or shape, empty; with both present, a null-pointer failure exactly when some element is null; otherwise strictly ascending and containing exactly the indexes of elements equivalent to the shape |
| Equivalence.FirstIsHeadOfAll | src/main/java/org/xmlcml/graphics/svg/SVGShape.java:143-189 | on a null-free list, the all-matches search succeeds; first-match is -1 exactly when all-matches is empty, and otherwise is its first element |
| Equivalence.Elim | src/main/java/org/xmlcml/graphics/svg/SVGShape.java:131-141 | the list left by elimination is never longer than the input |
| Equivalence.ElimIsSubsequence | src/main/java/org/xmlcml/graphics/svg/SVGShape.java:131-141 | elimination only removes: the result is the input restricted to the survivor indexes |
| Equivalence.SurvivorIndexesAscending | src/main/java/org/xmlcml/graphics/svg/SVGShape.java:131-141 | the survivor indexes are ascending, so the order is preserved |
| Equivalence.SurvivorIndexesExact | src/main/java/org/xmlcml/graphics/svg/SVGShape.java:133-139 | the survivor indexes are exactly the indexes whose element no already-kept element covers |
| Equivalence.SurvivalRule | src/main/java/org/xmlcml/graphics/svg/SVGShape.java:133-139 | element i survives exactly when no surviving element at a higher index k has shapes[k] equivalent to shapes[i] |
| Equivalence.LaterDuplicateSurvives | src/main/java/org/xmlcml/graphics/svg/SVGShape.java:133-139 | of two equivalent shapes, the later one is kept and the earlier one removed |
| Equivalence.ElimKeepsLast | src/main/java/org/xmlcml/graphics/svg/SVGShape.java:131-141 | the last element of a non-empty list survives and stays last |
| Equivalence.ElimNoLaterEquivalent | src/main/java/org/xmlcml/graphics/svg/SVGShape.java:131-141 | in the result, no non-null element has an equivalent after it |
| Equivalence.ElimIdempotent | src/main/java/org/xmlcml/graphics/svg/SVGShape.java:131-141 | a second elimination removes nothing |
| SvgShapes.IndexOfGeometricalEquivalent | src/main/java/org/xmlcml/graphics/svg/SVGShape.java:143-155 | the scan with break returns the first-match index |
| SvgShapes.IndexesOfGeometricalEquivalent | src/main/java/org/xmlcml/graphics/svg/SVGShape.java:179-189 | returns empty for a null list or shape, a null-pointer failure on a null element, and otherwise the ascending exact match list |
| SvgShapes.EliminateGeometricalDuplicates | src/main/java/org/xmlcml/graphics/svg/SVGShape.java:131-141 | the descending loop with in-place removal leaves exactly the elimination result |
| SvgShapes.ShapesOf | src/main/java/org/xmlcml/graphics/svg/SVGShape.java:58-66 | the selected shapes are never more than the elements |
| SvgShapes.ExtractShapes | src/main/java/org/xmlcml/graphics/svg/SVGShape.java:58-66 | the loop collects exactly the shape elements, in order |
| SvgShapes.ShapesOfMembers | src/main/java/org/xmlcml/graphics/svg/SVGShape.java:58-66 | a shape is selected exactly when it occurs as an element |
| SvgShapes.ShapesOfConcat | src/main/java/org/xmlcml/graphics/svg/SVGShape.java:58-66 | selection distributes over concatenation, so the input order is kept |
| SvgShapes.ReplaceLineAndCloseUp | src/main/java/org/xmlcml/graphics/svg/SVGShape.java:77-80 | with iline and iline+1 present: iline becomes the new line, iline+1 is removed, length drops by one and all else is unchanged; missing iline throws with no change; missing iline+1 throws after the write |
| SvgShapes.MakeUrlRef | src/main/java/org/xmlcml/graphics/svg/SVGShape.java:109-111 | the reference reads back as its id, and as `null` for a null id |
| SvgShapes.UrlRefExact | src/main/java/org/xmlcml/graphics/svg/SVGShape.java:109-111 | every string that reads as a reference is the reference built from the id it names |
| SvgShapes.UrlRefCollisions | src/main/java/org/xmlcml/graphics/svg/SVGShape.java:109-111 | distinct ids give distinct references, but a null id and the id `null` give the same one |

## Left out

- `createMeanCubic` and `getQuadrant`: they depend on the `Arc` class and floating-point arc fitting, which are not part of this model.
- The internals of `calculateMeanLine`, `isAntiParallelTo`, `getLength`, `getMidPoint`, `getReverseCoordArray`, `getAngle` of a primitive, and `normalizeToPlusMinusPI`. They are foreign floating-point geometry and appear only as the uninterpreted fields of `Primitives.Geometry`, passed as a parameter.
- Floating point: coordinates, angles and tolerances are `real`, so rounding in `Math.abs`, `Math.PI / 2` and the comparisons is not modelled. `PI` is the decimal value of `Math.PI`.
- `getDString`: it delegates to the path serialiser `SVGPath.constructDString`, which is not part of this model.
- `isZeroDimensional`: it reads a floating-point bounding box.
- The marker setters, `addTitle` and `extractSelfAndDescendantShapes`: these are XML attribute and tree plumbing and an XPath query. Only their string builder `makeUrlRef` is modelled.
- `getGeometricHash` and `isGeometricallyEqualTo`: they are abstract. Equivalence is the parameter `eq`, with epsilon fixed by the caller.
- `iterator()` and `getPrimitiveList()`: they hand out the Java list itself. Aliasing of that list, and of primitives and points shared with callers, is not modelled; the model's lists are values held in fields.
- `ensurePathPrimitiveList`: the model's list starts empty instead of null. `getAngle` (and through it `quadrantValue` and `isUTurn`), `getUTurnList` and `replaceUTurnsByButt` dereference the field without that call, so on a never-used list they throw a `NullPointerException`; the model instead gives their empty-list behaviour, which for `ReplaceUTurnsByButt` is `Thrown(IndexOutOfBounds)`.
- Null primitives and null arguments: a list element is a `Prim` and a coordinate array is non-empty, so neither can be null in the model. The four members below are therefore silent on their null cases.
- PathPrimitives.PathPrimitiveList.Add: does not model adding a null primitive, which Java stores and a later continuity pass dereferences.
- PathPrimitives.PathPrimitiveList.Remove: does not model a null element at `i`, which Java's `get(i)` reports as absent, so the element stays in place.
- PathPrimitives.PathPrimitiveList.ReplaceCubicCoords: does not model a null cubic argument, which throws a `NullPointerException` in Java when `i` holds a cubic.
- PathPrimitives.PathPrimitiveList.ReplaceLineCoords: does not model a null coordinate array, which Java stores in the line at `i`.
- `ListRef`: an argument list is modelled as a mutable `ArrayList`; an unmodifiable list, whose `addAll` throws `UnsupportedOperationException`, is not modelled.
- `size()`: it is `|prims|` wherever it is used.
- A null `shapes` argument to `indexOfGeometricalEquivalent` or `eliminateGeometricalDuplicates`: the model takes a list, so the `NullPointerException` these would raise is not modelled.
- An exception raised inside `isGeometricallyEqualTo` or the geometry calls is not modelled; they are total functions here.
- `ElementMerger.java`: it is an abstract class with no logic.

## Findings

| source | as written | input that shows it | evidently intended | confidence | as-written member | corrected member |
|---|---|---|---|---|---|---|
| src/main/java/org/xmlcml/graphics/svg/path/PathPrimitiveList.java:33-37 | the parameter `primitiveList` shadows the field, so `primitiveList.addAll(primitiveList)` appends the argument to itself and the stored list is never extended; on an empty stored list `setFirstPoints` then throws | a fresh `PathPrimitiveList` and `add(new ArrayList<>(List.of(p)))`: the argument becomes `[p, p]`, the path stays empty and `IndexOutOfBoundsException` is thrown | append the argument to the stored list, then run the continuity pass | not executed | PathPrimitives.AddListDropsArgument | PathPrimitives.AppendAllKeepsArgument |
