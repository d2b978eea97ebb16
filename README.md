# arcgis2geojson — a verified Dafny model of the ring assembly and geometry dispatch

arcgis2geojson converts an ArcGIS feature set (Esri JSON) into a GeoJSON
feature collection (RFC 7946). This project models two parts of it:

- **`port.go`**: the geometric predicates and the ring-assembly routine
  `convertRingsToGeoJSON`. That routine takes an unordered list of ArcGIS
  polygon rings and does four things:
  1. It drops degenerate rings.
  2. It sorts the rest into outer rings and a stack of holes.
  3. It places each hole in front of a ring that encloses it or, failing
     that, one that it crosses.
  4. It promotes any hole that matches nothing.

  This part also models `getId`, which chooses a feature's id from its
  attributes.
- **`core.go`**: the per-feature geometry dispatch (`featureToFeature`,
  `pointsToFeature`, `pathsToFeature`, `ringsToFeature`,
  `boundingBoxToFeature`) and `Convert`'s WKID check and per-feature loop.
  `Convert` starts here from an already decoded document.

Files:

| file | module | contents |
|---|---|---|
| `wrappers.dfy` | `Wrappers` | `Option`, `Result` |
| `seqs.dfy` | `Seqs` | `Reverse`, `Insert` (the Go `append(s[:x], append([]T{h}, s[x:]...)...)` idiom), order embeddings (`Subsequence`) |
| `rings.dfy` | `Rings` | points, rings and the predicates of `port.go` |
| `assembly.dfy` | `Assembly` | `convertRingsToGeoJSON` and its conservation and ordering lemmas |
| `ids.dfy` | `Ids` | the attribute value type `Json` and `getId` |
| `features.dfy` | `Features` | the `orb` geometries as a datatype, the `core.go` conversions |

Modelling choices:

- **Numbers.** Coordinates are exact `real`s. A point is a `seq<real>` of length at least 2, because every predicate reads `[0]` and `[1]`.
- **Loops.** Loops that update locals become methods with loop invariants, each proved equal to a ghost specification function:
  - `pointsEqual`, `ringIsClockwise`, `arrayIntersectsArray` and `coordinatesContainPoint`;
  - the swap-reversal of `ring3` and `reverseHole`, done on an array in place;
  - the three `for` loops of `convertRingsToGeoJSON`, whose `holes` and `uncontainedHoles` stacks are `seq`s that are popped from the end, and whose `outerRings` grows by insertion;
  - the `orb` append loops;
  - the `Properties` map fill;
  - `Convert`'s feature loop.
- **Pure functions.** `closeRing`, `vertexIntersectsVertex`, `getId` and `boundingBoxToFeature` are functions.
- **Specification of `convertRingsToGeoJSON`.** It is specified by `Assembly.Assemble`, which is built from three parts:
  1. `Classify` sorts the rings into outer rings and holes.
  2. `PlaceContained` is pass one. It pops holes LIFO and scans from the highest index down, so the first enclosing ring wins (`LastMatch`).
  3. `PlaceIntersecting` is pass two, which does the same with crossing. An unmatched hole is appended reversed.

  Both passes take their match rule as a function parameter. `Assemble` supplies `HoleEnclosed` (coordinatesContainCoordinates) and `EdgesCross` (arrayIntersectsArray). The conservation and ordering lemmas therefore hold whatever the two tests compute.

### Behaviour of the code that the model keeps

- **Winding test.** The test runs on the reversed copy `ring3` (port.go:115-122). An input ring therefore joins the outer list iff its own sum Σ(x[i+1]−x[i])(y[i+1]+y[i]) is ≤ 0 (`Assembly.ClassifyByOwnSum`). A ring with a positive sum goes onto the hole stack.
- **Hole placement.** All rings live in one flat list. A matched hole is inserted immediately *before* the ring that matched (port.go:142, port.go:168). Holes tested later are also tested against holes already placed.
- **Orphan holes.** In pass two, a hole can match a hole promoted earlier in the same pass (port.go:164-181). Such a hole is inserted as is and is not promoted itself.
- **Output wrapping.**
  - `ringsToFeature` wraps two or more returned rings as a `MultiPolygon` with *one* polygon that holds all of them (core.go:191-197).
  - When every ring is degenerate (non-empty input, nothing kept), the result is `MultiPolygon([[]])`, not an absent geometry (`Features.SingleRingGeometry`).
- **Closure.** The stored rings are the unclosed copies. `closeRing`'s result is used only for the length test (port.go:110-116).

## Model

| member | source | states |
|---|---|---|
| Rings.PointsEqual | port.go:9-16 | true iff every coordinate of `a` equals the same coordinate of `b` (compared over `len(a)`) |
| Rings.CloseRing | port.go:19-24 | the result starts with the input and is at most one point longer; it is the input exactly when first and last points coincide, and otherwise the one point added is the first point itself; its last point coincides with its first |
| Rings.CloseRingIdempotent | port.go:19-24 | closing a closed ring changes nothing |
| Rings.RingIsClockwise | port.go:29-40 | the loop's running total is the signed sum Σ(x[i+1]−x[i])(y[i+1]+y[i]); the result is true iff that sum is ≥ 0 (rings of one point count as clockwise) |
| Rings.WindingSumReverse | port.go:29-40 | reversing a ring negates its signed sum |
| Rings.ReversalFlipsWinding | port.go:114-122 | the reversed copy tests clockwise iff the ring's own sum is ≤ 0; reversal flips the result whenever the sum is nonzero |
| Seqs.ReverseInPlace | port.go:117-120 | the swap loop from the middle outwards leaves the array holding its old contents reversed |
| Rings.ReversedCopy | port.go:115-120 | the copy-then-swap of `ring3` and `reverseHole` yields exactly the reversed ring |
| Rings.VertexIntersectsVertex | port.go:43-56 | false whenever the denominator `uB` is 0 (parallel or collinear segments) |
| Rings.CramerSolution | port.go:44-50 | when `uB` ≠ 0, `ua = uaT/uB`, `ub = ubT/uB` is the one pair of parameters at which the two segments' lines meet |
| Rings.SegmentsMeet | port.go:43-56 | true iff `uB` ≠ 0 and the segments meet at parameters both in [0, 1] |
| Rings.VertexIntersectionSymmetric | port.go:43-56 | the segment test gives the same answer with the segments swapped |
| Rings.ArrayIntersectsArray | port.go:59-68 | true iff some edge (a[i], a[i+1]) crosses some edge (b[j], b[j+1]); a ring of fewer than 2 points crosses nothing |
| Rings.EdgesCrossFlip | port.go:59-68 | a crossing of `a` with `b` is a crossing of `b` with `a` |
| Rings.EdgesCrossSymmetric | port.go:59-68 | ring crossing is symmetric |
| Rings.CoordinatesContainPoint | port.go:71-84 | returns the parity of the edges (including the closing edge from the last point to the first) that the ray from the point crosses; an empty ring contains nothing |
| Rings.NoCrossingOutsideSpan | port.go:76-78 | no edge is counted for a point strictly below every vertex, or at or above every vertex |
| Rings.OutsideVerticalSpan | port.go:71-84 | a point strictly below every vertex, or at or above every vertex, of a ring is not inside it |
| Rings.CoordinatesContainCoordinates | port.go:87-94 | true iff the rings do not cross and the outer ring contains the inner ring's first point; a true result means the inner ring crosses nothing of the outer |
| Rings.DegenerateOuterEnclosesNothing | port.go:87-94 | an outer ring of fewer than two points encloses nothing |
| Seqs.Insert | port.go:142 | the hole lands at the matched index; the entries before it are kept, and the entries from it on move up by one |
| Seqs.SubsequenceInsert | port.go:142 | an insertion keeps every earlier entry, in order |
| Assembly.KeptIffClosedLength | port.go:108-113 | a ring survives iff its closed form has at least 4 points |
| Assembly.Classify | port.go:107-127 | the classification loop: every hole on the stack has at least 3 points |
| Assembly.LastMatch | port.go:138-145 | the scan from the highest index down returns the first entry the rule accepts; no entry above it is accepted, and -1 means none is |
| Assembly.Assemble | port.go:99-186 | the output has one entry per kept ring |
| Assembly.PlaceContained | port.go:132-153 | pass one only moves rings: the placed list and the uncontained stack together hold as many entries as the outer list, the hole stack and the uncontained stack did; neither the placed list nor the uncontained stack shrinks |
| Assembly.PlaceIntersecting | port.go:156-183 | pass two adds exactly one entry to the list per uncontained hole |
| Assembly.LastEnclosing | port.go:138-147 | the downward scan with `coordinatesContainCoordinates` stops at `LastMatch` for enclosure: the highest index whose ring encloses the hole, or -1 |
| Assembly.LastCrossing | port.go:164-173 | the downward scan with `arrayIntersectsArray` stops at `LastMatch` for crossing: the highest index whose ring crosses the hole, or -1 |
| Assembly.ConvertRingsToGeoJSON | port.go:99-186 | the three loops compute exactly `Assemble(rings)` |
| Assembly.ClassifyConserves | port.go:107-127 | outer list plus hole stack hold exactly the kept rings, up to reversal, with multiplicity |
| Assembly.ClassifyByOwnSum | port.go:114-126 | the outer list is the reversed kept rings whose own sum is ≤ 0, in input order; the hole stack is the reversed kept rings whose own sum is > 0, in input order |
| Assembly.PlaceContainedConserves | port.go:132-153 | for any match rule, pass one only moves rings: the placed list plus the uncontained stack hold exactly the rings it started with, and the uncontained stack only grows |
| Assembly.PlaceContainedConservesOrbits | port.go:132-153 | the same conservation, up to reversal of each ring |
| Assembly.PlaceContainedKeepsOrder | port.go:132-153 | entries already in the outer list never change relative order in pass one |
| Assembly.PlaceIntersectingConserves | port.go:156-183 | for any match rule, pass two adds one entry per uncontained hole, each the hole or its reversal, and keeps the relative order of existing entries |
| Assembly.PlaceIntersectingExact | port.go:156-183 | for any match rule, with `Promoted` the holes that match nothing: the promoted holes are drawn from the stack, and the output plus the promoted holes equals, as a multiset, the list plus the stack plus the promoted holes reversed; a matched hole goes in as is, and only a promoted hole is replaced by its reversal |
| Assembly.MatchedStep | port.go:164-172 | the exact conservation survives a step that inserts the hole at the matched index |
| Assembly.PromotedStep | port.go:174-181 | the exact conservation survives a step that appends the reversed hole |
| Assembly.PlaceContainedUnmatched | port.go:132-153 | every hole pass one leaves uncontained came from the hole stack or was already uncontained |
| Assembly.ClassifyExact | port.go:107-127 | outer list plus hole stack hold exactly the reversed kept rings, with multiplicity |
| Assembly.AssembleConserves | port.go:99-186 | the output has exactly one entry per kept ring, each the kept ring or its reversal, with multiplicity |
| Assembly.AssembleExact | port.go:99-186 | the output is the reversed kept rings, as a multiset, except that each promoted hole appears as the input ring itself; the promoted holes are reversed copies of kept rings whose own sum is positive |
| Assembly.AssembleEntriesFromKept | port.go:99-186 | every output entry is a kept input ring or its reversal |
| Assembly.AssembleKeepsOuterRings | port.go:99-186 | the reversed outer rings appear in the output in input order |
| Assembly.AssembleWithoutHoles | port.go:99-186 | when no kept ring has a positive sum, the output is every kept ring reversed, in input order |
| Assembly.NoHoles | port.go:107-127 | when no kept ring has a positive sum, the hole stack stays empty |
| Assembly.ClassifySingleRing | port.go:107-127 | a single ring is dropped, put in the outer list reversed, or pushed reversed on the hole stack, according to its length and its sum |
| Assembly.AssembleSingleRing | port.go:99-186 | a single ring gives nothing if degenerate, its reversal if its sum is ≤ 0, and itself (reversed twice by promotion) if its sum is positive |
| Ids.FirstPresent | port.go:250-259 | scans the fallback keys in order: none iff no key is present, otherwise the value of the first present key |
| Ids.GetId | port.go:242-261 | succeeds iff `idAttribute`, `OBJECTID` or `FID` is present, preferring them in that order, and otherwise fails with "no valid id attribute found" |
| Features.ToLine | core.go:140-143 | the append loop turns every point into an `orb` point of its x and y, in order |
| Features.PointsToFeature | core.go:133-149 | no geometry iff there are no points, a Point iff there is one, otherwise a MultiPoint of every point in order |
| Features.PathsToFeature | core.go:151-174 | no geometry iff there are no paths, a LineString iff there is one, otherwise a MultiLineString of every path in order |
| Features.RingsToFeature | core.go:176-199 | no geometry iff there are no rings; a Polygon iff exactly one ring is kept; otherwise a MultiPolygon of one polygon holding every returned ring |
| Features.SingleRingGeometry | core.go:176-199 | one degenerate ring gives `MultiPolygon([[]])`; a kept ring gives a Polygon of its reversal (sum ≤ 0) or of itself (sum > 0) |
| Features.RingsGeometryFromInput | core.go:176-199 | the polygon has one ring per kept input ring, each the x/y projection of a kept ring or of its reversal |
| Features.BoundingBoxToFeature | core.go:201-210 | a Polygon with one ring of exactly five points: (xmax, ymax), (xmin, ymax), (xmin, ymin), (xmax, ymin), (xmax, ymax) |
| Features.BoxRingWinding | core.go:201-210 | the box ring is already closed; its signed sum is 2(xmax−xmin)(ymin−ymax), so a proper box runs counter-clockwise |
| Features.GeometryPrecedence | core.go:38-77 | later checks overwrite earlier ones: a bounding box beats rings, rings beat paths, paths beat points, points beat x/y, and none of them means no geometry |
| Features.FeatureGeometry | core.go:38-77 | the sequence of overwriting checks computes the geometry of the highest-precedence applicable source (`GeometryOf`, characterised by `GeometryPrecedence`) |
| Features.FeatureToFeature | core.go:36-91 | the geometry is the precedence geometry; properties equal the attributes key for key; the id is set iff `getId` succeeds |
| Features.Convert | core.go:11-34 | fails with the WKID error iff the WKID is not 4326; otherwise one converted feature per input feature, in order |

## Left out

- JSON decoding and encoding in `Convert` (core.go:15-18, core.go:33): the model starts from a decoded `ArcGISJSON` and returns the features, not their bytes.
- `paulmach/orb` and its GeoJSON encoder are not part of this model. Their geometries are the `Features.Geometry` datatype.
- Floating point: coordinates are exact reals. Rounding, NaN and −0 are not modelled.
- Points with fewer than two coordinates are not represented: the `Point` type has at least two. Go accepts such points wherever they are never indexed, for instance in a ring such as `[[1]]` or `[[1],[2],[1]]`, which the length test at port.go:111 drops before any `[1]` is read.
- Points of mixed length are represented only where the first point of a ring is no longer than its last (`Closable`, `WellFormed`), and `Rings.PointsEqual` requires its first point to be no longer than its second. Go's `pointsEqual` returns false at the first differing coordinate, so a ring such as `[[1,2,3],[4,5],[6,7],[8,9]]` does not fail in Go. These are restrictions of the model, not Go failures.
- Empty rings: `closeRing` reads the first point (port.go:20) and fails on an empty ring in Go. The model excludes them (`Closable`, `WellFormed`) rather than modelling the failure.
- `ringIsClockwise` on an empty ring fails in Go. `Rings.RingIsClockwise` requires a non-empty ring.
- Slice aliasing and `append` capacity: rings and lists are values. The one observable effect is kept: the stored ring is the unclosed copy.
- Map iteration order in `getId` and in the `Properties` loop: keys are unique, so the model uses map lookup and map equality.
- `orientRings` and `flattenMultiPolygonRings` (port.go:191-240): not reachable from `Convert`.
- The `Z` coordinate of a point feature is read but never used by the source, and so is not used by the model.
- The command-line program (`cmd/arcgis2geojson.go`) is not part of this model.
