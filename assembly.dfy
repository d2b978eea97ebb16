/** convertRingsToGeoJSON (port.go): turns an unordered list of ArcGIS rings
    into the flat list of rings the GeoJSON geometry is built from.

    The specification is written as three ghost functions that follow the
    three loops of the source: Classify (drop degenerate rings, split the
    reversed copies into outer rings and a hole stack), PlaceContained (pass
    one, containment) and PlaceIntersecting (pass two, intersection, then
    promotion). Their composition is Assemble. The geometric tests stay
    abstract in every structural lemma below. */
module Assembly {
  import opened Seqs
  import opened Rings

  // ---------------------------------------------------------------------------
  // Classification

  /** The rings the source keeps: at least four points, or three whose first
      and last differ (closing them adds a fourth). */
  predicate Kept(r: Ring)
    requires Closable(r)
  {
    |r| >= 4 || (|r| == 3 && !Coincide(r[0], r[2]))
  }

  /** Kept is exactly the source's test: the closed ring has at least 4 points. */
  lemma KeptIffClosedLength(r: Ring)
    requires Closable(r)
    ensures Kept(r) <==> |CloseRing(r)| >= 4
  {
  }

  predicate AllClosable(rings: seq<Ring>)
  {
    forall i :: 0 <= i < |rings| ==> Closable(rings[i])
  }

  /** The input rings that survive the length test, in input order. */
  ghost function KeptRings(rings: seq<Ring>): seq<Ring>
    requires AllClosable(rings)
  {
    if rings == [] then []
    else KeptRings(rings[..|rings| - 1]) + (if Kept(rings[|rings| - 1]) then [rings[|rings| - 1]] else [])
  }

  /** The kept rings whose own winding sum is at most zero (exterior = true)
      or positive (exterior = false), in input order. */
  ghost function KeptWhere(rings: seq<Ring>, exterior: bool): seq<Ring>
    requires AllClosable(rings)
  {
    if rings == [] then []
    else
      var r := rings[|rings| - 1];
      KeptWhere(rings[..|rings| - 1], exterior) + (if Kept(r) && (WindingSum(r) <= 0.0) == exterior then [r] else [])
  }

  function ReverseEach(rs: seq<Ring>): seq<Ring>
  {
    seq(|rs|, i requires 0 <= i < |rs| => Reverse(rs[i]))
  }

  /** The first loop: each kept ring is reversed; the reversed copy is pushed
      to the outer list when it tests clockwise, and onto the hole stack
      otherwise. Returns (outer rings, hole stack). */
  ghost function Classify(rings: seq<Ring>): (c: (seq<Ring>, seq<Ring>))
    requires AllClosable(rings)
    ensures forall k :: 0 <= k < |c.1| ==> |c.1[k]| >= 3
  {
    if rings == [] then ([], [])
    else
      var (outer, holes) := Classify(rings[..|rings| - 1]);
      var r := rings[|rings| - 1];
      if !Kept(r) then (outer, holes)
      else if Clockwise(Reverse(r)) then (outer + [Reverse(r)], holes)
      else (outer, holes + [Reverse(r)])
  }

  // ---------------------------------------------------------------------------
  // Hole placement

  /** The rule of pass one, coordinatesContainCoordinates; it is only ever
      applied to non-empty holes. */
  ghost predicate HoleEnclosed(outer: Ring, hole: Ring)
  {
    |hole| > 0 && Encloses(outer, hole)
  }

  /** The downward scan over the first n entries with the match rule m: the
      highest index whose entry matches the hole, or -1 when none does. */
  ghost function LastMatch(m: (Ring, Ring) -> bool, rs: seq<Ring>, hole: Ring, n: nat): (x: int)
    requires n <= |rs|
    ensures -1 <= x < n
    ensures x >= 0 ==> m(rs[x], hole)
    ensures forall k :: x < k < n ==> !m(rs[k], hole)
  {
    if n == 0 then -1
    else if m(rs[n - 1], hole) then n - 1
    else LastMatch(m, rs, hole, n - 1)
  }

  ghost predicate NonEmptyRings(rs: seq<Ring>)
  {
    forall k :: 0 <= k < |rs| ==> |rs[k]| > 0
  }

  /** Pass one, with match rule m: pop holes off the stack; a hole goes in
      front of the last entry that matches it, or onto the stack of unmatched
      holes. */
  ghost function PlaceContained(m: (Ring, Ring) -> bool, outer: seq<Ring>, holes: seq<Ring>, uncontained: seq<Ring>): (p: (seq<Ring>, seq<Ring>))
    ensures |p.0| + |p.1| == |outer| + |holes| + |uncontained|
    ensures |outer| <= |p.0| && |uncontained| <= |p.1|
    decreases |holes|
  {
    if holes == [] then (outer, uncontained)
    else
      var hole := holes[|holes| - 1];
      var x := LastMatch(m, outer, hole, |outer|);
      if x >= 0 then PlaceContained(m, Insert(outer, x, hole), holes[..|holes| - 1], uncontained)
      else PlaceContained(m, outer, holes[..|holes| - 1], uncontained + [hole])
  }

  /** Pass two, with match rule m: pop unmatched holes; a hole goes in front
      of the last entry that matches it, or is reversed back and appended at
      the end. */
  ghost function PlaceIntersecting(m: (Ring, Ring) -> bool, outer: seq<Ring>, uncontained: seq<Ring>): (r: seq<Ring>)
    ensures |r| == |outer| + |uncontained|
    decreases |uncontained|
  {
    if uncontained == [] then outer
    else
      var hole := uncontained[|uncontained| - 1];
      var rest := uncontained[..|uncontained| - 1];
      var x := LastMatch(m, outer, hole, |outer|);
      if x >= 0 then PlaceIntersecting(m, Insert(outer, x, hole), rest)
      else PlaceIntersecting(m, outer + [Reverse(hole)], rest)
  }

  lemma ClassifiedHolesNonEmpty(rings: seq<Ring>)
    requires AllClosable(rings)
    ensures NonEmptyRings(Classify(rings).1)
  {
  }

  /** What convertRingsToGeoJSON returns: containment first, then edge
      crossing. */
  ghost function Assemble(rings: seq<Ring>): (r: seq<Ring>)
    requires AllClosable(rings)
    ensures |r| == |KeptRings(rings)|
  {
    ClassifyConserves(rings);
    var (outer, holes) := Classify(rings);
    var (placed, uncontained) := PlaceContained(HoleEnclosed, outer, holes, []);
    PlaceIntersecting(EdgesCross, placed, uncontained)
  }

  // ---------------------------------------------------------------------------
  // The methods

  /** The downward scan of pass one (port.go:138-147): the index of the last
      ring that encloses the hole, or -1. */
  method LastEnclosing(outerRings: seq<Ring>, hole: Ring) returns (x: int)
    requires |hole| > 0
    ensures x == LastMatch(HoleEnclosed, outerRings, hole, |outerRings|)
    ensures x >= 0 ==> Encloses(outerRings[x], hole)
  {
    x := |outerRings| - 1;
    while x >= 0
      invariant -1 <= x < |outerRings|
      invariant LastMatch(HoleEnclosed, outerRings, hole, |outerRings|) == LastMatch(HoleEnclosed, outerRings, hole, x + 1)
      decreases x + 1
    {
      var c := CoordinatesContainCoordinates(outerRings[x], hole);
      if c {
        return;
      }
      x := x - 1;
    }
  }

  /** The downward scan of pass two (port.go:164-173): the index of the last
      ring whose edges cross the hole's, or -1. */
  method LastCrossing(outerRings: seq<Ring>, hole: Ring) returns (x: int)
    ensures x == LastMatch(EdgesCross, outerRings, hole, |outerRings|)
    ensures x >= 0 ==> EdgesCross(outerRings[x], hole)
  {
    x := |outerRings| - 1;
    while x >= 0
      invariant -1 <= x < |outerRings|
      invariant LastMatch(EdgesCross, outerRings, hole, |outerRings|) == LastMatch(EdgesCross, outerRings, hole, x + 1)
      decreases x + 1
    {
      var c := ArrayIntersectsArray(outerRings[x], hole);
      if c {
        return;
      }
      x := x - 1;
    }
  }

  /** convertRingsToGeoJSON. */
  method ConvertRingsToGeoJSON(rings: seq<Ring>) returns (outerRings: seq<Ring>)
    requires AllClosable(rings)
    ensures outerRings == Assemble(rings)
  {
    outerRings := [];
    var holes: seq<Ring> := [];
    var i := 0;
    while i < |rings|
      invariant 0 <= i <= |rings|
      invariant (outerRings, holes) == Classify(rings[..i])
    {
      assert rings[..i + 1][..i] == rings[..i];
      var ring2 := rings[i];
      var ring := CloseRing(ring2);
      KeptIffClosedLength(ring2);
      if |ring| >= 4 {
        var ring3 := ReversedCopy(ring2);
        var cw := RingIsClockwise(ring3);
        if cw {
          outerRings := outerRings + [ring3];
        } else {
          holes := holes + [ring3];
        }
      }
      i := i + 1;
    }
    assert rings[..i] == rings;
    ClassifiedHolesNonEmpty(rings);
    ghost var classified := (outerRings, holes);

    var uncontainedHoles: seq<Ring> := [];
    while |holes| > 0
      invariant NonEmptyRings(holes) && NonEmptyRings(uncontainedHoles)
      invariant PlaceContained(HoleEnclosed, outerRings, holes, uncontainedHoles) == PlaceContained(HoleEnclosed, classified.0, classified.1, [])
      decreases |holes|
    {
      var hole := holes[|holes| - 1];
      holes := holes[..|holes| - 1];
      var x := LastEnclosing(outerRings, hole);
      if x >= 0 {
        outerRings := outerRings[..x] + [hole] + outerRings[x..];
      } else {
        uncontainedHoles := uncontainedHoles + [hole];
      }
    }

    while |uncontainedHoles| != 0
      invariant NonEmptyRings(uncontainedHoles)
      invariant PlaceIntersecting(EdgesCross, outerRings, uncontainedHoles) == Assemble(rings)
      decreases |uncontainedHoles|
    {
      var hole := uncontainedHoles[|uncontainedHoles| - 1];
      uncontainedHoles := uncontainedHoles[..|uncontainedHoles| - 1];
      var x := LastCrossing(outerRings, hole);
      if x >= 0 {
        outerRings := outerRings[..x] + [hole] + outerRings[x..];
      } else {
        var reverseHole := ReversedCopy(hole);
        outerRings := outerRings + [reverseHole];
      }
    }
  }

  // ---------------------------------------------------------------------------
  // Properties

  /** The two orientations of a ring, as one unordered value. */
  ghost function Orbit(r: Ring): set<Ring>
  {
    {r, Reverse(r)}
  }

  ghost function Orbits(rs: seq<Ring>): seq<set<Ring>>
  {
    seq(|rs|, i requires 0 <= i < |rs| => Orbit(rs[i]))
  }

  lemma OrbitReverse(r: Ring)
    ensures Orbit(Reverse(r)) == Orbit(r)
  {
    ReverseReverse(r);
  }

  lemma OrbitsAppend(a: seq<Ring>, b: seq<Ring>)
    ensures Orbits(a + b) == Orbits(a) + Orbits(b)
  {
  }

  lemma OrbitsSnoc(s: seq<Ring>, r: Ring)
    ensures multiset(Orbits(s + [r])) == multiset(Orbits(s)) + multiset{Orbit(r)}
  {
    OrbitsAppend(s, [r]);
  }

  lemma InsertMultisets(s: seq<Ring>, x: nat, h: Ring)
    requires x <= |s|
    ensures multiset(Insert(s, x, h)) == multiset(s) + multiset{h}
    ensures multiset(Orbits(Insert(s, x, h))) == multiset(Orbits(s)) + multiset{Orbit(h)}
  {
    assert s == s[..x] + s[x..];
    OrbitsAppend(s[..x], s[x..]);
    OrbitsAppend(s[..x] + [h], s[x..]);
    OrbitsAppend(s[..x], [h]);
  }

  /** The first loop keeps the kept rings, split between the two lists, counted
      by orientation-free ring. This is the coarser form of ClassifyExact, kept
      because the orientation-free lemmas below compose through it. */
  lemma {:induction false} ClassifyConserves(rings: seq<Ring>)
    requires AllClosable(rings)
    ensures |Classify(rings).0| + |Classify(rings).1| == |KeptRings(rings)|
    ensures multiset(Orbits(Classify(rings).0)) + multiset(Orbits(Classify(rings).1)) == multiset(Orbits(KeptRings(rings)))
  {
    if rings != [] {
      var init := rings[..|rings| - 1];
      var r := rings[|rings| - 1];
      ClassifyConserves(init);
      var c := Classify(init);
      var kept := KeptRings(init);
      if Kept(r) {
        assert KeptRings(rings) == kept + [r];
        OrbitsSnoc(kept, r);
        OrbitReverse(r);
        if Clockwise(Reverse(r)) {
          assert Classify(rings) == (c.0 + [Reverse(r)], c.1);
          OrbitsSnoc(c.0, Reverse(r));
        } else {
          assert Classify(rings) == (c.0, c.1 + [Reverse(r)]);
          OrbitsSnoc(c.1, Reverse(r));
        }
      } else {
        assert KeptRings(rings) == kept;
        assert Classify(rings) == c;
      }
    }
  }

  /** The winding test runs on the reversed copy, so a ring goes to the outer
      list exactly when its own sum is at most zero: the outer list is the
      reversed copies of those rings, the hole stack the reversed copies of
      the rest, both in input order. */
  lemma {:induction false} ClassifyByOwnSum(rings: seq<Ring>)
    requires AllClosable(rings)
    ensures Classify(rings) == (ReverseEach(KeptWhere(rings, true)), ReverseEach(KeptWhere(rings, false)))
  {
    if rings != [] {
      var init := rings[..|rings| - 1];
      var r := rings[|rings| - 1];
      ClassifyByOwnSum(init);
      ReversalFlipsWinding(r);
      var ext, inn := KeptWhere(init, true), KeptWhere(init, false);
      if Kept(r) {
        if WindingSum(r) <= 0.0 {
          assert KeptWhere(rings, true) == ext + [r];
          assert KeptWhere(rings, false) == inn;
          assert ReverseEach(ext + [r]) == ReverseEach(ext) + [Reverse(r)];
        } else {
          assert KeptWhere(rings, true) == ext;
          assert KeptWhere(rings, false) == inn + [r];
          assert ReverseEach(inn + [r]) == ReverseEach(inn) + [Reverse(r)];
        }
      } else {
        assert KeptWhere(rings, true) == ext;
        assert KeptWhere(rings, false) == inn;
      }
    }
  }

  /** Pass one only moves rings: nothing is reversed, dropped or duplicated,
      and the earlier uncontained holes stay at the bottom of their stack. */
  lemma {:induction false} PlaceContainedConserves(m: (Ring, Ring) -> bool, outer: seq<Ring>, holes: seq<Ring>, uncontained: seq<Ring>)
    ensures var (placed, unc) := PlaceContained(m, outer, holes, uncontained);
      && multiset(placed) + multiset(unc) == multiset(outer) + multiset(holes) + multiset(uncontained)
      && |placed| + |unc| == |outer| + |holes| + |uncontained|
      && uncontained <= unc
    decreases |holes|
  {
    if holes != [] {
      var p := PlaceContained(m, outer, holes, uncontained);
      var hole := holes[|holes| - 1];
      var rest := holes[..|holes| - 1];
      assert holes == rest + [hole];
      var x := LastMatch(m, outer, hole, |outer|);
      if x >= 0 {
        var next := Insert(outer, x, hole);
        assert p == PlaceContained(m, next, rest, uncontained);
        PlaceContainedConserves(m, next, rest, uncontained);
        InsertMultisets(outer, x, hole);
      } else {
        assert p == PlaceContained(m, outer, rest, uncontained + [hole]);
        PlaceContainedConserves(m, outer, rest, uncontained + [hole]);
      }
    }
  }

  /** The same conservation, counted by orientation-free ring: a coarser form
      of PlaceContainedConserves, in the terms PlaceIntersectingConserves uses. */
  lemma {:induction false} PlaceContainedConservesOrbits(m: (Ring, Ring) -> bool, outer: seq<Ring>, holes: seq<Ring>, uncontained: seq<Ring>)
    ensures var (placed, unc) := PlaceContained(m, outer, holes, uncontained);
      multiset(Orbits(placed)) + multiset(Orbits(unc)) == multiset(Orbits(outer)) + multiset(Orbits(holes)) + multiset(Orbits(uncontained))
    decreases |holes|
  {
    if holes != [] {
      var p := PlaceContained(m, outer, holes, uncontained);
      var hole := holes[|holes| - 1];
      var rest := holes[..|holes| - 1];
      assert holes == rest + [hole];
      OrbitsSnoc(rest, hole);
      var x := LastMatch(m, outer, hole, |outer|);
      if x >= 0 {
        var next := Insert(outer, x, hole);
        assert p == PlaceContained(m, next, rest, uncontained);
        PlaceContainedConservesOrbits(m, next, rest, uncontained);
        InsertMultisets(outer, x, hole);
      } else {
        assert p == PlaceContained(m, outer, rest, uncontained + [hole]);
        PlaceContainedConservesOrbits(m, outer, rest, uncontained + [hole]);
        OrbitsSnoc(uncontained, hole);
      }
    }
  }

  /** Pass one only inserts: the entries already in the list keep their
      relative order. */
  lemma {:induction false} PlaceContainedKeepsOrder(m: (Ring, Ring) -> bool, outer: seq<Ring>, holes: seq<Ring>, uncontained: seq<Ring>)
    ensures Subsequence(outer, PlaceContained(m, outer, holes, uncontained).0)
    decreases |holes|
  {
    var p := PlaceContained(m, outer, holes, uncontained);
    if holes == [] {
      SubsequenceRefl(outer);
    } else {
      var hole := holes[|holes| - 1];
      var rest := holes[..|holes| - 1];
      var x := LastMatch(m, outer, hole, |outer|);
      if x >= 0 {
        var next := Insert(outer, x, hole);
        assert p == PlaceContained(m, next, rest, uncontained);
        PlaceContainedKeepsOrder(m, next, rest, uncontained);
        SubsequenceInsert(outer, x, hole);
        SubsequenceTrans(outer, next, p.0);
      } else {
        assert p == PlaceContained(m, outer, rest, uncontained + [hole]);
        PlaceContainedKeepsOrder(m, outer, rest, uncontained + [hole]);
      }
    }
  }

  /** Pass two places or promotes every uncontained hole: each ends up in the
      list once, in one orientation or the other, and the entries already in
      the list keep their relative order. PlaceIntersectingExact says which
      orientation; this orientation-free form is what AssembleEntriesFromKept
      and AssembleKeepsOuterRings build on. */
  lemma {:induction false} PlaceIntersectingConserves(m: (Ring, Ring) -> bool, outer: seq<Ring>, uncontained: seq<Ring>)
    ensures |PlaceIntersecting(m, outer, uncontained)| == |outer| + |uncontained|
    ensures multiset(Orbits(PlaceIntersecting(m, outer, uncontained))) == multiset(Orbits(outer)) + multiset(Orbits(uncontained))
    ensures Subsequence(outer, PlaceIntersecting(m, outer, uncontained))
    decreases |uncontained|
  {
    var result := PlaceIntersecting(m, outer, uncontained);
    if uncontained == [] {
      SubsequenceRefl(outer);
    } else {
      var hole := uncontained[|uncontained| - 1];
      var rest := uncontained[..|uncontained| - 1];
      assert uncontained == rest + [hole];
      OrbitsSnoc(rest, hole);
      var x := LastMatch(m, outer, hole, |outer|);
      if x >= 0 {
        var next := Insert(outer, x, hole);
        assert result == PlaceIntersecting(m, next, rest);
        PlaceIntersectingConserves(m, next, rest);
        InsertMultisets(outer, x, hole);
        SubsequenceInsert(outer, x, hole);
        SubsequenceTrans(outer, next, result);
      } else {
        var promoted := outer + [Reverse(hole)];
        assert result == PlaceIntersecting(m, promoted, rest);
        PlaceIntersectingConserves(m, promoted, rest);
        OrbitsSnoc(outer, Reverse(hole));
        OrbitReverse(hole);
        SubsequenceAppend(outer, [Reverse(hole)]);
        SubsequenceTrans(outer, promoted, result);
      }
    }
  }

  /** Conservation: one output entry per kept ring, and each kept ring
      appears exactly once, as itself or reversed. AssembleExact says which
      orientation each entry has; this coarser form is the one
      AssembleEntriesFromKept uses. */
  lemma AssembleConserves(rings: seq<Ring>)
    requires AllClosable(rings)
    ensures |Assemble(rings)| == |KeptRings(rings)|
    ensures multiset(Orbits(Assemble(rings))) == multiset(Orbits(KeptRings(rings)))
  {
    var (outer, holes) := Classify(rings);
    ClassifyConserves(rings);
    PlaceContainedConserves(HoleEnclosed, outer, holes, []);
    PlaceContainedConservesOrbits(HoleEnclosed, outer, holes, []);
    var (placed, uncontained) := PlaceContained(HoleEnclosed, outer, holes, []);
    PlaceIntersectingConserves(EdgesCross, placed, uncontained);
  }

  // ---------------------------------------------------------------------------
  // Exact orientation of every output entry

  /** The holes pass two promotes (reverses back and appends), as they stood
      on the stack, in the order they are popped. */
  ghost function Promoted(m: (Ring, Ring) -> bool, outer: seq<Ring>, uncontained: seq<Ring>): seq<Ring>
    decreases |uncontained|
  {
    if uncontained == [] then []
    else
      var hole := uncontained[|uncontained| - 1];
      var rest := uncontained[..|uncontained| - 1];
      var x := LastMatch(m, outer, hole, |outer|);
      if x >= 0 then Promoted(m, Insert(outer, x, hole), rest)
      else [hole] + Promoted(m, outer + [Reverse(hole)], rest)
  }

  lemma ReverseEachCons(r: Ring, rs: seq<Ring>)
    ensures ReverseEach([r] + rs) == [Reverse(r)] + ReverseEach(rs)
  {
  }

  /** Pass two exactly: a matched hole is inserted as it stood on the stack,
      an unmatched one is replaced by its reversal. The promoted holes are
      drawn from the stack, and the result holds the list it started from,
      the stack, with each promoted hole traded for its reversal. */
  lemma {:induction false} PlaceIntersectingExact(m: (Ring, Ring) -> bool, outer: seq<Ring>, uncontained: seq<Ring>)
    ensures multiset(Promoted(m, outer, uncontained)) <= multiset(uncontained)
    ensures multiset(PlaceIntersecting(m, outer, uncontained)) + multiset(Promoted(m, outer, uncontained)) ==
      multiset(outer) + multiset(uncontained) + multiset(ReverseEach(Promoted(m, outer, uncontained)))
    decreases |uncontained|
  {
    if uncontained != [] {
      var hole := uncontained[|uncontained| - 1];
      var rest := uncontained[..|uncontained| - 1];
      assert uncontained == rest + [hole];
      var x := LastMatch(m, outer, hole, |outer|);
      if x >= 0 {
        var next := Insert(outer, x, hole);
        PlaceIntersectingExact(m, next, rest);
        InsertMultisets(outer, x, hole);
        MatchedStep(m, outer, rest, hole, x);
      } else {
        var promoted := outer + [Reverse(hole)];
        PlaceIntersectingExact(m, promoted, rest);
        PromotedStep(m, outer, rest, hole);
      }
    }
  }

  /** The step of PlaceIntersectingExact for a hole inserted at x. */
  lemma MatchedStep(m: (Ring, Ring) -> bool, outer: seq<Ring>, rest: seq<Ring>, hole: Ring, x: nat)
    requires x <= |outer| && x == LastMatch(m, outer, hole, |outer|)
    requires multiset(Insert(outer, x, hole)) == multiset(outer) + multiset{hole}
    requires multiset(Promoted(m, Insert(outer, x, hole), rest)) <= multiset(rest)
    requires multiset(PlaceIntersecting(m, Insert(outer, x, hole), rest)) + multiset(Promoted(m, Insert(outer, x, hole), rest)) ==
      multiset(Insert(outer, x, hole)) + multiset(rest) + multiset(ReverseEach(Promoted(m, Insert(outer, x, hole), rest)))
    ensures multiset(Promoted(m, outer, rest + [hole])) <= multiset(rest + [hole])
    ensures multiset(PlaceIntersecting(m, outer, rest + [hole])) + multiset(Promoted(m, outer, rest + [hole])) ==
      multiset(outer) + multiset(rest + [hole]) + multiset(ReverseEach(Promoted(m, outer, rest + [hole])))
  {
    var unc := rest + [hole];
    assert unc[..|unc| - 1] == rest && unc[|unc| - 1] == hole;
    assert PlaceIntersecting(m, outer, unc) == PlaceIntersecting(m, Insert(outer, x, hole), rest);
    var p := Promoted(m, Insert(outer, x, hole), rest);
    assert Promoted(m, outer, unc) == p;
    assert multiset(unc) == multiset(rest) + multiset{hole};
    calc {
      multiset(PlaceIntersecting(m, outer, unc)) + multiset(p);
      multiset(Insert(outer, x, hole)) + multiset(rest) + multiset(ReverseEach(p));
      multiset(outer) + multiset(unc) + multiset(ReverseEach(p));
    }
  }

  /** One unfolding of pass two for a hole that no ring matches. */
  lemma PromoteUnfold(m: (Ring, Ring) -> bool, outer: seq<Ring>, rest: seq<Ring>, hole: Ring)
    requires LastMatch(m, outer, hole, |outer|) < 0
    ensures PlaceIntersecting(m, outer, rest + [hole]) == PlaceIntersecting(m, outer + [Reverse(hole)], rest)
    ensures Promoted(m, outer, rest + [hole]) == [hole] + Promoted(m, outer + [Reverse(hole)], rest)
  {
    var unc := rest + [hole];
    assert unc[..|unc| - 1] == rest && unc[|unc| - 1] == hole;
  }

  /** The multiset bookkeeping of a promotion step. */
  lemma PromoteBalance(res: multiset<Ring>, p: multiset<Ring>, o: multiset<Ring>, rest: multiset<Ring>, rp: multiset<Ring>, hole: Ring)
    requires res + p == o + multiset{Reverse(hole)} + rest + rp
    ensures res + (multiset{hole} + p) == o + (rest + multiset{hole}) + (multiset{Reverse(hole)} + rp)
  {
    var lhs := res + (multiset{hole} + p);
    var rhs := o + (rest + multiset{hole}) + (multiset{Reverse(hole)} + rp);
    forall r: Ring
      ensures lhs[r] == rhs[r]
    {
      assert (res + p)[r] == (o + multiset{Reverse(hole)} + rest + rp)[r];
    }
    assert lhs == rhs;
  }

  /** The step of PlaceIntersectingExact for a hole that is promoted. */
  lemma PromotedStep(m: (Ring, Ring) -> bool, outer: seq<Ring>, rest: seq<Ring>, hole: Ring)
    requires LastMatch(m, outer, hole, |outer|) < 0
    requires multiset(Promoted(m, outer + [Reverse(hole)], rest)) <= multiset(rest)
    requires multiset(PlaceIntersecting(m, outer + [Reverse(hole)], rest)) + multiset(Promoted(m, outer + [Reverse(hole)], rest)) ==
      multiset(outer + [Reverse(hole)]) + multiset(rest) + multiset(ReverseEach(Promoted(m, outer + [Reverse(hole)], rest)))
    ensures multiset(Promoted(m, outer, rest + [hole])) <= multiset(rest + [hole])
    ensures multiset(PlaceIntersecting(m, outer, rest + [hole])) + multiset(Promoted(m, outer, rest + [hole])) ==
      multiset(outer) + multiset(rest + [hole]) + multiset(ReverseEach(Promoted(m, outer, rest + [hole])))
  {
    var promoted := outer + [Reverse(hole)];
    var p := Promoted(m, promoted, rest);
    var res := PlaceIntersecting(m, promoted, rest);
    PromoteUnfold(m, outer, rest, hole);
    ReverseEachCons(hole, p);
    assert multiset(rest + [hole]) == multiset(rest) + multiset{hole};
    assert multiset([hole] + p) == multiset{hole} + multiset(p);
    assert multiset([Reverse(hole)] + ReverseEach(p)) == multiset{Reverse(hole)} + multiset(ReverseEach(p));
    assert multiset(promoted) == multiset(outer) + multiset{Reverse(hole)};
    PromoteBalance(multiset(res), multiset(p), multiset(outer), multiset(rest), multiset(ReverseEach(p)), hole);
  }

  /** Pass one leaves on the unmatched stack only holes it was given. */
  lemma {:induction false} PlaceContainedUnmatched(m: (Ring, Ring) -> bool, outer: seq<Ring>, holes: seq<Ring>, uncontained: seq<Ring>)
    ensures multiset(PlaceContained(m, outer, holes, uncontained).1) <= multiset(holes) + multiset(uncontained)
    decreases |holes|
  {
    if holes != [] {
      var hole := holes[|holes| - 1];
      var rest := holes[..|holes| - 1];
      assert holes == rest + [hole];
      assert multiset(holes) == multiset(rest) + multiset{hole};
      var x := LastMatch(m, outer, hole, |outer|);
      if x >= 0 {
        assert PlaceContained(m, outer, holes, uncontained) == PlaceContained(m, Insert(outer, x, hole), rest, uncontained);
        PlaceContainedUnmatched(m, Insert(outer, x, hole), rest, uncontained);
      } else {
        assert PlaceContained(m, outer, holes, uncontained) == PlaceContained(m, outer, rest, uncontained + [hole]);
        PlaceContainedUnmatched(m, outer, rest, uncontained + [hole]);
      }
    }
  }

  lemma ReverseEachSnoc(rs: seq<Ring>, r: Ring)
    ensures ReverseEach(rs + [r]) == ReverseEach(rs) + [Reverse(r)]
  {
  }

  /** The first loop stores exactly the reversed copies of the kept rings,
      split between the two lists. */
  lemma {:induction false} ClassifyExact(rings: seq<Ring>)
    requires AllClosable(rings)
    ensures multiset(Classify(rings).0) + multiset(Classify(rings).1) == multiset(ReverseEach(KeptRings(rings)))
  {
    if rings != [] {
      var init := rings[..|rings| - 1];
      var r := rings[|rings| - 1];
      ClassifyExact(init);
      var c := Classify(init);
      var kept := KeptRings(init);
      if Kept(r) {
        assert KeptRings(rings) == kept + [r];
        ReverseEachSnoc(kept, r);
        if Clockwise(Reverse(r)) {
          assert Classify(rings) == (c.0 + [Reverse(r)], c.1);
        } else {
          assert Classify(rings) == (c.0, c.1 + [Reverse(r)]);
        }
      } else {
        assert KeptRings(rings) == kept;
        assert Classify(rings) == c;
      }
    }
  }

  /** The holes convertRingsToGeoJSON promotes, as reversed copies of their
      input rings. */
  ghost function AssemblePromoted(rings: seq<Ring>): seq<Ring>
    requires AllClosable(rings)
  {
    var (outer, holes) := Classify(rings);
    var (placed, uncontained) := PlaceContained(HoleEnclosed, outer, holes, []);
    Promoted(EdgesCross, placed, uncontained)
  }

  /** Every output entry is the reversed copy of a kept input ring, except the
      promoted holes, which come back as the input ring itself: the output is
      the reversed kept rings with each promoted copy traded for its reversal.
      Only rings with a positive sum can be promoted. */
  lemma AssembleExact(rings: seq<Ring>)
    requires AllClosable(rings)
    ensures multiset(AssemblePromoted(rings)) <= multiset(ReverseEach(KeptWhere(rings, false)))
    ensures multiset(Assemble(rings)) + multiset(AssemblePromoted(rings)) ==
      multiset(ReverseEach(KeptRings(rings))) + multiset(ReverseEach(AssemblePromoted(rings)))
  {
    var (outer, holes) := Classify(rings);
    ClassifyByOwnSum(rings);
    ClassifyExact(rings);
    PlaceContainedConserves(HoleEnclosed, outer, holes, []);
    PlaceContainedUnmatched(HoleEnclosed, outer, holes, []);
    var (placed, uncontained) := PlaceContained(HoleEnclosed, outer, holes, []);
    PlaceIntersectingExact(EdgesCross, placed, uncontained);
  }

  /** Every output entry is a kept input ring or its reverse; in particular a
      ring dropped by the length test contributes nothing. */
  lemma AssembleEntriesFromKept(rings: seq<Ring>)
    requires AllClosable(rings)
    ensures forall i :: 0 <= i < |Assemble(rings)| ==>
      exists k :: 0 <= k < |KeptRings(rings)| &&
        (Assemble(rings)[i] == KeptRings(rings)[k] || Assemble(rings)[i] == Reverse(KeptRings(rings)[k]))
  {
    var out, kept := Assemble(rings), KeptRings(rings);
    AssembleConserves(rings);
    forall i | 0 <= i < |out|
      ensures exists k :: 0 <= k < |kept| && (out[i] == kept[k] || out[i] == Reverse(kept[k]))
    {
      assert Orbits(out)[i] == Orbit(out[i]);
      assert Orbit(out[i]) in multiset(Orbits(kept));
      var k :| 0 <= k < |kept| && Orbits(kept)[k] == Orbit(out[i]);
      assert out[i] in Orbit(kept[k]);
    }
  }

  /** The outer rings found by the first loop survive both passes unchanged
      and in input order (holes are only inserted between them, promoted
      holes only appended). */
  lemma AssembleKeepsOuterRings(rings: seq<Ring>)
    requires AllClosable(rings)
    ensures Subsequence(ReverseEach(KeptWhere(rings, true)), Assemble(rings))
  {
    ClassifyByOwnSum(rings);
    var (outer, holes) := Classify(rings);
    PlaceContainedKeepsOrder(HoleEnclosed, outer, holes, []);
    var (placed, uncontained) := PlaceContained(HoleEnclosed, outer, holes, []);
    PlaceIntersectingConserves(EdgesCross, placed, uncontained);
    SubsequenceTrans(outer, placed, Assemble(rings));
  }

  /** When no kept ring has a positive sum there are no holes, and the output
      is the reversed kept rings in input order. */
  lemma AssembleWithoutHoles(rings: seq<Ring>)
    requires AllClosable(rings)
    requires forall i :: 0 <= i < |rings| && Closable(rings[i]) && Kept(rings[i]) ==> WindingSum(rings[i]) <= 0.0
    ensures Assemble(rings) == ReverseEach(KeptRings(rings))
  {
    NoHoles(rings);
    ClassifyByOwnSum(rings);
    ClassifyConserves(rings);
  }

  lemma {:induction false} NoHoles(rings: seq<Ring>)
    requires AllClosable(rings)
    requires forall i :: 0 <= i < |rings| && Closable(rings[i]) && Kept(rings[i]) ==> WindingSum(rings[i]) <= 0.0
    ensures KeptWhere(rings, false) == []
    ensures KeptWhere(rings, true) == KeptRings(rings)
  {
    if rings != [] {
      NoHoles(rings[..|rings| - 1]);
    }
  }

  /** A single ring: dropped when degenerate; otherwise returned reversed when
      its own sum is at most zero, and returned as given when the sum is
      positive (it is queued as a hole, matches nothing and is promoted,
      reversed back). */
  lemma ClassifySingleRing(r: Ring)
    requires Closable(r)
    ensures Classify([r]) ==
      if !Kept(r) then ([], [])
      else if WindingSum(r) <= 0.0 then ([Reverse(r)], [])
      else ([], [Reverse(r)])
  {
    var rings := [r];
    assert rings[..|rings| - 1] == [];
    assert Classify(rings[..|rings| - 1]) == ([], []);
    assert rings[|rings| - 1] == r;
    ReversalFlipsWinding(r);
    if !Kept(r) {
      assert Classify(rings) == ([], []);
    } else if WindingSum(r) <= 0.0 {
      assert Clockwise(Reverse(r));
      var c := Classify(rings);
      assert c.0 == [Reverse(r)];
      assert c.1 == [];
    } else {
      assert !Clockwise(Reverse(r));
      var c := Classify(rings);
      assert c.0 == [];
      assert c.1 == [Reverse(r)];
    }
  }

  lemma AssembleSingleRing(r: Ring)
    requires Closable(r)
    ensures Assemble([r]) ==
      if !Kept(r) then []
      else if WindingSum(r) <= 0.0 then [Reverse(r)]
      else [r]
  {
    ClassifySingleRing(r);
    if Kept(r) && WindingSum(r) > 0.0 {
      ReverseReverse(r);
      assert PlaceContained(HoleEnclosed, [], [Reverse(r)], []) == PlaceContained(HoleEnclosed, [], [], [Reverse(r)]);
      assert PlaceIntersecting(EdgesCross, [], [Reverse(r)]) == PlaceIntersecting(EdgesCross, [Reverse(Reverse(r))], []);
    }
  }
}
