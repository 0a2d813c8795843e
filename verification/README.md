# Delaunay terrain triangulation, modelled in Dafny

This project models the mesh-generation core of a small terrain triangulator. The triangulator:
- loads scattered height samples;
- grows a triangulation outward from the closest pair of points by an advancing front of edges;
- emits zero-based vertex-index triples together with per-vertex normal accumulators.

The core is `Delaunay::generateTIN` and the geometric primitives it relies on: `Point`, `Edge`, `Triangle`, `isReseaonable`, `area`, `minAngle`, `getNormal`, `inside` and `tricircumcenter3d`.

All arithmetic is over exact reals. `sqrt`, `acos` and `glm::normalize` are not computed:
- lengths are characterised by `IsLength(e, r)` (`r ≥ 0` and `r² = |p1 − p2|²`);
- the arc cosine and the normalisation are oracle parameters.

Modules:

- `Vectors` (vectors.dfy): 3-vectors and the algebraic identities the proofs use (cross products, Lagrange's identity).
- `Geometry` (geometry.dfy): points with id-only equality, edges and their lengths, the two `Triangle` constructors, the reasonableness test, Heron's radicand, `minAngle` and `getNormal`.
- `Circumsphere` (circumsphere.dfy): the rational circumcentre formula of `tricircumcenter3d`, its characterisation as the unique equidistant point in the plane of the corners, and `inside` as a squared-distance comparison.
- `TriangleKeys` (keys.dfy): the three conditional swaps that sort an id triple, and the packed key `a·10⁸ + b·10⁴ + c`. It has two versions of the key:
  - the mathematical key, which the engine uses;
  - the key as the C++ computes it in 32-bit `int`.
- `Loader` (loader.dfy): what `readFile` leaves behind:
  - ids 1..n in load order;
  - `z` pinned to 1;
  - the real heights kept in a parallel sequence.
- `Triangulation` (engine.dfy): `generateTIN` as a method over a sequence-as-stack, a set of recorded keys and an output sequence. The geometric tests are function parameters (`Primitives`). One loop iteration is the method `Advance`.
- `ExactPrimitives` (exact.dfy): instantiates those parameters with the primitives of `Delaunay.h`. Every emitted triangle is then non-degenerate with an empty circumsphere.

Points of the code's behaviour that a reader might not expect, and that the model keeps:
- **Normal accumulation.** The normal of each new triangle is added three times to `points[a-1]`, the accumulator of its smallest-id corner, and to no other vertex (include/Delaunay.cpp:152-157).
- **Fewer than two points.** The seed search takes `min_element` of an empty distance list and indexes an empty vector. The model makes `|pts| >= 2` a precondition.
- **Coincident samples.** Two samples at the same plane position give a closest pair at distance 0. No triangle on that seed edge is reasonable, so the scan finds no winner and the output is empty, whatever the other points are (`ExactPrimitives.Triangulate`).
- **Key overflow.** The key is computed in 32-bit `int` and overflows for large smallest ids; distinct triangles can then share a key (see Findings).

## Model

| member | source | states |
|---|---|---|
| Geometry.SamePoint | include/Delaunay.h:35-38 | `Point::operator==`: true exactly when the ids agree; its properties are stated by the lemmas below |
| Geometry.DifferentPoint | include/Delaunay.h:40-42 | `Point::operator!=`: the negation of `operator==` |
| Geometry.PointEqualityIsIdEquality | include/Delaunay.h:35-42 | `==` holds exactly when the ids agree and `!=` is exactly its negation |
| Geometry.PointEqualityIgnoresGeometry | include/Delaunay.h:35-38 | coordinates and normals play no part in point equality: points with the same ids compare the same way |
| Geometry.CoincidentPointsMayDiffer | include/Delaunay.h:35-38 | two samples at the same position with different ids are different points |
| Geometry.PointEqualityIsEquivalence | include/Delaunay.h:35-42 | point equality is reflexive, symmetric and transitive |
| Geometry.SqLength | include/Delaunay.h:52-54 | the radicand of `Edge::length` is never negative, so the square root is always defined |
| Geometry.IsLength | include/Delaunay.h:52-54 | `r` is the non-negative square root of the squared distance; its partners `LengthUnique` and `LengthSymmetric` state that each edge has exactly one length, the same both ways |
| Geometry.EdgeVector | include/Delaunay.h:56-58 | the vector from `p1` to `p2`; its partner `RawNormal` states that the triangle's normal is the cross product of two of these side vectors, up to sign |
| Geometry.LengthSymmetric | include/Delaunay.h:52-54 | an edge and its reverse have the same length |
| Geometry.LengthUnique | include/Delaunay.h:52-54 | an edge has exactly one length |
| Geometry.LengthOfCoincidentPoints | include/Delaunay.h:52-54 | the edge between coincident points has length 0 |
| Geometry.LengthOrderIsSqLengthOrder | include/Delaunay.h:52-54 | comparing lengths gives the same verdict as comparing squared lengths |
| Geometry.FromEdges | include/Delaunay.h:71-75 | the edge constructor caches `a`, `b`, `c` as the lengths of `l1`, `l2`, `l3` in that order |
| Geometry.FromPoints | include/Delaunay.h:76-80 | the point constructor builds the cycle (p1,p2), (p2,p3), (p3,p1) and agrees with the edge constructor on those edges |
| Geometry.ExactLengthGivesExactSides | include/Delaunay.h:76-80 | with exact edge lengths the cached sides are the exact side lengths |
| Geometry.ReasonableSides | include/Delaunay.h:82-85 | `isReseaonable` on the cached sides: false when some side is at least the sum of the other two |
| Geometry.ReasonableIsStrictTriangleInequality | include/Delaunay.h:82-85 | `isReseaonable` holds iff `a+b>c`, `a+c>b` and `b+c>a` all hold strictly |
| Geometry.ReasonablePermutationInvariant | include/Delaunay.h:82-85 | the verdict is the same for all six orders of the sides |
| Geometry.AreaRadicand | include/Delaunay.h:87-91 | the radicand `p(p−a)(p−b)(p−c)` of `area`, with `p` the semi-perimeter; the square root is not taken |
| Geometry.HeronFactorsPositive | include/Delaunay.h:82-91 | a reasonable triangle has positive sides, a positive semi-perimeter and positive Heron factors, so the radicand of `area` and the divisors of `minAngle` are positive |
| Geometry.ReasonableIffPositiveArea | include/Delaunay.h:82-91 | for non-negative sides, reasonable iff Heron's radicand is positive |
| Geometry.ReasonableFromSquaredLengths | include/Delaunay.h:82-91 | with exact sides, reasonableness is decided on squared lengths alone, with no square root |
| Geometry.ReasonablePointsAgrees | include/Delaunay.h:76-85 | for any exact length function, `Triangle(p1,p2,p3).isReseaonable()` equals the squared-length test on the three points |
| Geometry.ReasonablePointsSymmetric | include/Delaunay.h:76-85 | the test on three points does not depend on their order |
| Geometry.MinOfThree | include/Delaunay.h:105 | the nested ternary returns a value no larger than each argument and equal to one of them |
| Geometry.MinOfThreeSymmetric | include/Delaunay.h:105 | the selected minimum does not depend on the order of the three angles |
| Geometry.LawOfCosinesSymmetric | include/Delaunay.h:101-103 | the cosine of an angle does not depend on the order of its two adjacent sides |
| Geometry.MinAngle | include/Delaunay.h:99-106 | `minAngle` is at most each of the three angles and equal to one of them |
| Geometry.CosinesInOpenInterval | include/Delaunay.h:99-103 | in a reasonable triangle every `acos` argument lies strictly inside (−1, 1) |
| Geometry.CosineBound | include/Delaunay.h:101-103 | the law-of-cosines quotient lies strictly inside (−1, 1) under the strict triangle inequality |
| Geometry.MinAngleOfReasonablePositive | include/Delaunay.h:99-106 | with an arc cosine positive on (−1, 1), a reasonable triangle has a positive smallest angle |
| Geometry.RotationInvariance | include/Delaunay.h:87-106 | `minAngle` and the area are unchanged when the triangle's edges are relabelled cyclically |
| Geometry.GetNormal | include/Delaunay.h:108-113 | `getNormal`: the normalised `l1 × l2`, replaced by the normalised `l2 × l1` when its z is negative; `Geometry.GetNormalPointsUp` states what it yields |
| Geometry.RawNormal | include/Delaunay.h:108-113 | the unnormalised normal is `l1 × l2` or its negation, and its z-component is never negative |
| Geometry.GetNormalPointsUp | include/Delaunay.h:108-113 | when normalising keeps the sign of z, `getNormal` is the normalised upward cross product and points up |
| Circumsphere.CircumcenterOffset | include/Delaunay.h:148-215 | `tricircumcenter3d` without the `EXACT` and `xi`/`eta` branches: the offset of the circumcentre from `a`, defined only for non-collinear corners; `Circumsphere.OffsetEquations` and `Circumsphere.CircumcenterUnique` characterise it |
| Circumsphere.InsideCircumsphere | include/Delaunay.h:132-145 | the strict test "closer to the circumcentre than the corner `c`", and false for collinear corners, where the source compares with NaN |
| Circumsphere.Inside | include/Delaunay.h:115-146 | `Triangle::inside`: `InsideCircumsphere` on the first points of `l1`, `l2`, `l3` |
| Circumsphere.HalfInverseProduct | include/Delaunay.h:203-204 | `denominator` times the squared cross product is one half |
| Circumsphere.OffsetEquations | include/Delaunay.h:158-215 | the offset `o` satisfies `o·(b−a) = ½|b−a|²`, `o·(c−a) = ½|c−a|²` and `o·((b−a)×(c−a)) = 0` |
| Circumsphere.OffsetDotFirst | include/Delaunay.h:207-212 | the first of those equations, proved from the component formulas |
| Circumsphere.OffsetDotSecond | include/Delaunay.h:207-212 | the second of those equations |
| Circumsphere.Circumcenter | include/Delaunay.h:132-137 | `a` plus the offset, defined for non-collinear corners; its partners `CircumcenterEquidistant` and `CircumcenterUnique` state that it is the one point of the plane equidistant from the corners |
| Circumsphere.CircumcenterEquidistant | include/Delaunay.h:132-137 | `a + o` is equidistant from `a`, `b` and `c` and lies in their plane |
| Circumsphere.CircumcenterUnique | include/Delaunay.h:148-215 | any point equidistant from the three corners and in their plane is the computed circumcentre |
| Circumsphere.CrossSqSymmetric | include/Delaunay.h:197-204 | the denominator does not depend on the order of the corners |
| Circumsphere.CircumcenterSymmetric | include/Delaunay.h:132-215 | the computed centre does not depend on which corners are `b` and `c`, nor on swapping `a` and `b` |
| Circumsphere.CentrePoint | include/Delaunay.h:139-142 | the point built at the centre sits exactly at the centre |
| Circumsphere.InsideComparesLengths | include/Delaunay.h:139-145 | comparing exact lengths to the centre gives the same verdict as `InsideCircumsphere`'s squared-distance comparison |
| Circumsphere.CornersNotInside | include/Delaunay.h:132-145 | none of the triangle's own corners is strictly inside its circumsphere |
| Circumsphere.InsideSymmetric | include/Delaunay.h:132-145 | the verdict does not depend on the order of the corners, though the radius is measured to `l3.p1` |
| Circumsphere.HeronIsCrossSq | include/Delaunay.h:197-204 | Heron's product on the squared sides is four times the circumcentre's denominator |
| Circumsphere.ReasonableIffNotCollinear | include/Delaunay.h:82-85 | three points make a reasonable triangle iff they are not collinear, which is iff the circumcentre's denominator is non-zero |
| TriangleKeys.Sort3 | include/Delaunay.cpp:111-113 | the three swaps leave `a ≤ b ≤ c`, a permutation of the input |
| TriangleKeys.Sort3OrderIndependent | include/Delaunay.cpp:109-113 | the sorted triple depends only on the three ids, not on which is `p1`, `p2` or `p` |
| TriangleKeys.Sort3Strict | include/Delaunay.cpp:139-141 | distinct ids sort strictly |
| TriangleKeys.Key | include/Delaunay.cpp:115 | the packing `a·10⁸ + b·10⁴ + c` over unbounded integers; its partners `KeyInjective` and `SortedKeyDeterminesTriple` state that it names a triple of ids up to 9999 uniquely |
| TriangleKeys.KeyInjective | include/Delaunay.cpp:115 | with the second and third ids in 0..9999, equal keys mean equal triples |
| TriangleKeys.SortedKeyDeterminesTriple | include/Delaunay.cpp:143-146 | among sorted triples of ids in 1..n, n ≤ 9999, a key names one triple |
| TriangleKeys.Wrap32 | include/Delaunay.cpp:115 | 32-bit wrap-around: the result is in the `int` range and congruent to the input modulo 2³² |
| TriangleKeys.KeyAsWrittenExactForSmallIds | include/Delaunay.cpp:115 | with the smallest id at most 20, the `int` arithmetic gives the intended key |
| TriangleKeys.KeyOverflowsAt21 | include/Delaunay.cpp:115 | at the smallest id 21 the intended key overflows exactly when `b·10⁴ + c > 47,483,647`, which for sorted ids up to 9999 is exactly `b ≥ 4748` |
| TriangleKeys.KeyOverflowsFrom22 | include/Delaunay.cpp:143 | from the smallest id 22 on, the intended key exceeds the `int` range whatever the other ids are |
| TriangleKeys.Wrap32Congruent | include/Delaunay.cpp:115 | values congruent modulo 2³² wrap to the same `int` |
| TriangleKeys.KeyAsWritten | include/Delaunay.cpp:115 | the same packing with every `int` product and sum wrapped; its partners `KeyAsWrittenIsWrappedKey`, `KeyAsWrittenExactForSmallIds` and `KeyAsWrittenCollides` relate it to `Key` and show where it fails to be injective |
| TriangleKeys.KeyAsWrittenIsWrappedKey | include/Delaunay.cpp:115 | wrapping every product and sum gives the wrap of the exact key |
| TriangleKeys.NoCollisionBelow43 | include/Delaunay.cpp:115 | overflow alone is harmless: sorted triples of ids up to 9999 whose smallest ids are both at most 42 never share a computed key |
| TriangleKeys.KeyAsWrittenCollides | include/Delaunay.cpp:115 | two different sorted triples, (1, 600, 601) and (44, 96, 7897), share a key as the C++ computes it |
| TriangleKeys.KeyAsWrittenCollidesAt43 | include/Delaunay.cpp:115 | the bound 43 is tight: (1, 2, 2203) and (43, 9498, 9499) share a computed key |
| Loader.Load | include/Delaunay.cpp:18-29 | loading numbers the points 1..n in order, keeps x and y, pins z to 1, zeroes the normals and keeps each height in `p_z` |
| Loader.PlanarCrossSq | include/Delaunay.h:197-199 | on a horizontal plane the circumcentre's denominator is the square of the plane orientation |
| Loader.PlanarCollinearNotReasonable | include/Delaunay.cpp:26-27 | points collinear in the plane never form a reasonable triangle |
| Loader.LoadedPointsArePlanar | include/Delaunay.cpp:26-29 | for loaded points, the denominator is the squared orientation, and plane-collinear samples are rejected |
| Triangulation.TriKey | include/Delaunay.cpp:109-115 | the key of three points: their ids sorted by the three swaps, then packed |
| Triangulation.SeedEdge | include/Delaunay.cpp:80-92 | the seed is a pair `i < j` whose length is at most every other pair's and strictly below every earlier pair's in row-major order |
| Triangulation.SeedUnique | include/Delaunay.cpp:89 | ties go to the first pair, so the seed is determined |
| Triangulation.AnyPointInside | include/Delaunay.cpp:121-127 | the inner loop with its `break` reports exactly whether some point other than the three corners is inside |
| Triangulation.Sentinel | include/Delaunay.cpp:103 | the default-constructed `_p`, with id 0, which no loaded point has; its partner `SelectApex` returns it exactly when no candidate scores above 0 |
| Triangulation.SelectApex | include/Delaunay.cpp:102-133 | the scan returns the sentinel (id 0) iff no candidate scores above 0; otherwise it returns the loaded point that is the first candidate of strictly maximal positive score |
| Triangulation.WinnerUnique | include/Delaunay.cpp:129-132 | the strict comparison makes the winner unique |
| Triangulation.WinnerMakesGoodFace | include/Delaunay.cpp:144 | the winner's face passes every filter and its key is still absent, so the re-check at line 144 always passes |
| Triangulation.FaceIdsInRange | include/Delaunay.cpp:135-141 | a face on three different loaded points sorts to ids `1 ≤ a < b < c ≤ n` |
| Triangulation.Lifted | include/Delaunay.cpp:152-154 | the corner built for the normal: the loaded x and y with the height as z; its partner `ExactPrimitives.ExactFaceNormalUp` states that the normal of lifted corners points up |
| Triangulation.FaceNormal | include/Delaunay.cpp:152-155 | the normal of the face's lifted triangle with corners in sorted-id order; its partners `NormalSumAppend` and `NormalsAppend` state how it enters the accumulators |
| Triangulation.NormalSumAppend | include/Delaunay.cpp:152-157 | a new face changes only the reference sum of its smallest id, by three times its normal |
| Triangulation.AddThrice | include/Delaunay.cpp:155-157 | adding the same vector three times adds three times the vector |
| Triangulation.UntouchedNormalIsZero | include/Delaunay.cpp:152-157 | a point that is the smallest corner of no face keeps a zero normal |
| Triangulation.AccumulatedNormalPointsUp | include/Delaunay.cpp:152-157 | when every face normal points up, every accumulated normal points up |
| Triangulation.KeyInAllKeys | include/Delaunay.cpp:143-146 | the key of any sorted triple of ids in 1..n is among the finitely many keys the run can record |
| Triangulation.FreshKeyShrinks | include/Delaunay.cpp:144-146 | recording a fresh key strictly shrinks the set of keys still unrecorded |
| Triangulation.TriplesOfDistinctFaces | include/Delaunay.cpp:148-150 | emitted triples are strictly increasing zero-based ids below n, and faces with different keys have different triples |
| Triangulation.FaceKeysAppend | include/Delaunay.cpp:146 | emitting a face adds exactly its key to the recorded keys |
| Triangulation.FaceKeysMembers | include/Delaunay.cpp:146 | a key is recorded iff some emitted face has it |
| Triangulation.KeyRecordedIffEmitted | include/Delaunay.cpp:116 | with ids up to 9999, the `existed` test rejects exactly the triangles whose sorted ids were already emitted |
| Triangulation.TriplesAppend | include/Delaunay.cpp:148-150 | appending `a−1, b−1, c−1` keeps every earlier triple and adds the new face's |
| Triangulation.KeysAppend | include/Delaunay.cpp:144-146 | recording a fresh key keeps the keys those of the emitted faces, all different |
| Triangulation.NormalsAppend | include/Delaunay.cpp:152-157 | adding the normal three times to `points[a-1]` keeps every accumulator equal to its reference sum |
| Triangulation.EmitPreserves | include/Delaunay.cpp:146-157 | the emission step preserves the whole output invariant |
| Triangulation.NothingEmittedYet | include/Delaunay.cpp:72-76 | the invariant holds for the empty start state |
| Triangulation.EmittedOutput | include/Delaunay.cpp:148-157 | the invariant gives the output properties of `generateTIN` |
| Triangulation.PushKeepsOnInput | include/Delaunay.cpp:159-160 | the pushed edges join different loaded points |
| Triangulation.EmitWinner | include/Delaunay.cpp:144-160 | emitting the winner's face on the popped edge appends it, records its key, appends its zero-based sorted ids, changes only the smallest corner's normal, pushes `(p1,_p)` then `(p2,_p)`, keeps the invariant and shrinks the unrecorded keys |
| Triangulation.DropStepped | include/Delaunay.cpp:95-137 | with no winner, an iteration only pops the top edge |
| Triangulation.WinnerStepped | include/Delaunay.cpp:95-160 | with a winner, an iteration appends the face of the popped edge and the first strictly best candidate after the earlier faces, appends its zero-based sorted ids, records its key and pushes the two new edges |
| Triangulation.Advance | include/Delaunay.cpp:95-163 | one iteration pops the top edge; with no winner it changes nothing else, otherwise it appends the face of the popped edge and the scan's first strictly best candidate, appends its zero-based sorted ids, records its key and pushes `(p1,_p)` then `(p2,_p)`. It keeps the invariant, changes only the smallest corner's normal, and either records a fresh key or shrinks the stack |
| Triangulation.SeedStep | include/Delaunay.cpp:76-97 | the first pop takes the seed edge: it is either dropped with nothing emitted or its winner's face becomes the first face |
| Triangulation.RunStarts | include/Delaunay.cpp:72-93 | before the loop the seed edge is the whole stack and nothing is recorded, emitted or accumulated |
| Triangulation.Iterate | include/Delaunay.cpp:95-163 | one iteration keeps the loop invariant, including the account of the seed edge, and decreases the termination measure |
| Triangulation.SeedOutcome | include/Delaunay.cpp:76-137 | at the end, the output is empty exactly when the seed edge had no winner, and otherwise starts with that winner's face |
| Triangulation.GenerateTIN | include/Delaunay.cpp:71-164 | the run returns the seed, the first closest pair, and terminates with: well-formed distinct zero-based triples, one per emitted face; every face on three different loaded points, reasonable, positively scored and with no blocker inside; each normal accumulator equal to three times the sum of the normals of the faces it is the smallest corner of; an empty output exactly when the seed edge has no winner, and otherwise a first face that is the seed edge with its winner |
| ExactPrimitives.ScanTriangle | include/Delaunay.cpp:118 | the scan triangle built from the popped edge is the point-constructed triangle on `p1`, `p2`, `p` |
| ExactPrimitives.Score | include/Delaunay.cpp:118-129 | the score of a candidate: `minAngle` of the scan triangle when it is reasonable |
| ExactPrimitives.Exact | include/Delaunay.cpp:118-129 | the engine's tests built from `Delaunay.h`: `Edge::length`, `isReseaonable`, `inside`, `minAngle` of the scan triangle, and `getNormal` of the lifted triangle |
| ExactPrimitives.ExactTests | include/Delaunay.cpp:118-123 | with lengths exact on the three sides, the scan's `reasonable` test is non-collinearity and `inside` is the strict circumsphere test |
| ExactPrimitives.ExactScorePositive | include/Delaunay.cpp:129 | with a positive arc cosine, the score beats 0 iff the triangle is reasonable |
| ExactPrimitives.SeedIsClosestPair | include/Delaunay.cpp:80-89 | with exact lengths, the seed by lengths is exactly the closest pair by squared distance, first in row-major order |
| ExactPrimitives.GoodFaceIsDelaunay | include/Delaunay.cpp:118-127 | with lengths exact on its sides, a face that passed the scan is non-degenerate and has no loaded point strictly inside its circumsphere |
| ExactPrimitives.ExactFaceNormalUp | include/Delaunay.cpp:152-154 | the normal of a face on lifted corners points up |
| ExactPrimitives.ExactNormalsPointUp | include/Delaunay.cpp:152-157 | every accumulated normal points up |
| ExactPrimitives.NoneInsideIsEmpty | include/Delaunay.cpp:121-126 | skipping `p1`, `p2` and `p` loses nothing: no other point is inside exactly when no loaded point is inside the circumsphere |
| ExactPrimitives.ExactWinnerExists | include/Delaunay.cpp:102-133 | with exact lengths and a positive arc cosine, the scan of an edge has a winner exactly when some loaded point with a fresh key closes it into a non-degenerate triangle with an empty circumsphere |
| ExactPrimitives.ZeroEdgeIsCollinear | include/Delaunay.h:82-85 | a triangle with two coincident corners is collinear |
| ExactPrimitives.ClosestPairAtZero | include/Delaunay.cpp:80-92 | when two loaded points coincide, the seed pair is at distance 0 |
| ExactPrimitives.CoincidentSeedIsDegenerate | include/Delaunay.cpp:80-123 | when two loaded points coincide, no point closes the seed edge |
| ExactPrimitives.CoincidentRowsDegenerateSeed | include/Delaunay.cpp:18-29 | two rows with the same x and y load to coincident points, so no point closes the seed edge |
| ExactPrimitives.ExactSeedOutcome | include/Delaunay.cpp:76-137 | the engine's account of the seed edge in exact terms: no output exactly when no loaded point closes the seed edge, otherwise a first face that closes it |
| ExactPrimitives.Triangulate | include/Delaunay.cpp:71-164 | loading then triangulating emits distinct well-formed triples of non-degenerate triangles with empty circumspheres; the seed is the closest pair; the output is empty exactly when no loaded point closes the seed edge, otherwise the first triangle closes it; two rows at the same plane position give an empty output |

## Left out

- Reading the file, parsing the columns and the `Bound` extremes (include/Delaunay.cpp:8-38): these are I/O. `Loader.Load` takes the parsed rows.
- `getVertices` (include/Delaunay.cpp:166-181): rendering glue. It also rescales floats and normalises.
- `getIndex` and `getIJ` (include/Delaunay.cpp:42-69): never called.
- `Triangle::outerRadius` (include/Delaunay.h:93-97): only referenced from commented-out code. `area` is modelled through its radicand, because the square root is not computed.
- The `EXACT` branch of `tricircumcenter3d` (include/Delaunay.h:169-193): it calls `orient2d`, which is not in the repository.
- The `xi`/`eta` branch (include/Delaunay.h:217-238): dead, because `inside` passes null pointers.
- The debug print of include/Delaunay.cpp:162.
- Floating point:
  - `float` coordinates, `double` lengths and the narrowing of the circumcentre back into `float` points are all modelled as exact reals;
  - `sqrt`, `acos` and `glm::normalize` are oracles in `ExactPrimitives.Oracles`;
  - a collinear triangle's circumcentre divides by zero in the source, the comparison with NaN is false, and `Circumsphere.InsideCircumsphere` answers false for it.
- The engine takes the geometric tests as the parameter `Triangulation.Primitives`. `ExactPrimitives.Exact` supplies the primitives of `Delaunay.h`.
- Point positions and ids never change during a run, and the scan never reads normals. So the engine scans the loaded points and keeps the normal accumulators in a parallel sequence. The unchanged ids and coordinates hold by construction, and `Triangulation.Advance` states which accumulator changes.
- `Triangulation.GenerateTIN`: requires at least two points, where the source indexes past the end of an empty vector. Beyond the fate of the seed edge it states soundness only. It does not state that every Delaunay triangle is found or that the faces form a manifold, which the source does not promise.
- `Triangulation.GenerateTIN`: covers one call with an empty `triIDs` on freshly loaded points, whose normals are zero. That is how `main.cpp` calls it. The source appends to whatever `triIDs` it is given and adds onto the points' current `normal`, so a non-empty vector or a second call keeps the old triples and counts the normals twice; the model states nothing about such calls.
- `Triangulation.GenerateTIN`: uses the mathematical key. The 32-bit key of the source is modelled separately under Findings.
- `ExactPrimitives.Triangulate`: does not prove that at least three non-collinear points at distinct positions give a non-empty output. It reduces that to the existence of a loaded point that closes the seed edge into a triangle with an empty circumsphere, and the geometric argument for that existence is not modelled. With coincident samples the output is empty even when other points are in general position.
- Point ids are `float` in the source (include/Delaunay.h:21), assigned from `i++` (include/Delaunay.cpp:24), compared as floats and cast back to `int`. The model uses exact integer ids. Above 2²⁴ points, neighbouring ids round to the same float and two different points would compare equal; the model does not cover that.
- `TriangleKeys.Wrap32`: signed overflow is undefined behaviour in C++. The model assumes the two's-complement wrap-around that common compilers produce.
- `Triangulation.KeyRecordedIffEmitted`: requires ids up to 9999, the range in which the packing is injective.
- `Loader.LoadedPointsArePlanar`: states only that plane-collinear points are rejected, not the converse.
- `ExactPrimitives.Score`: for an unreasonable triangle it is 0. The source never evaluates `minAngle` there, because it skips such candidates first.

## Findings

| source | as written | input that shows it | evidently intended | confidence | as-written member | corrected member |
|---|---|---|---|---|---|---|
| include/Delaunay.cpp:115 | `a * 100000000 + b * 10000 + c` is evaluated in 32-bit `int` and only then stored in the `long` index. It overflows from `a = 22` on, and for `a = 21` exactly when `b·10⁴ + c > 47,483,647`, which for a sorted triple means `b ≥ 4748`; taking the overflow as two's-complement wrap-around, two sorted triples of ids up to 9999 can share a key once a smallest id reaches 43 | the sorted triples (1, 600, 601) and (44, 96, 7897) both get the key 106000601; after the second is built, the first is taken as existing and never built | the exact key `a·10⁸ + b·10⁴ + c`, distinct for distinct triples of ids up to 9999 | high; not executed | TriangleKeys.KeyAsWrittenCollides | TriangleKeys.KeyInjective |
