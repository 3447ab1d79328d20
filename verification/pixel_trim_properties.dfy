/**
 Theorems about the pixel eraser's trim filter: its survivors as a function
 of the trail (a longer trail never keeps more), when it keeps everything or
 drops something, the deletion threshold, and a concrete deletion.
 */
module PixelTrimProperties {
  import opened Base
  import opened Geometry
  import opened Scene
  import opened PixelEraser
  import opened PixelTrim

  /**
   Monotonicity in the trail: when every point of `t1` is also in `t2`, the
   survivors against `t2` are a subsequence of the survivors against `t1`,
   so a longer trail never keeps more points.
   */
  lemma {:induction false} KeepFarMonotoneInTrail(e: Element, pts: seq<Point>, t1: seq<Point>, t2: seq<Point>, size: real)
    requires forall t :: t in t1 ==> t in t2
    ensures IsSubsequence(KeepFar(e, pts, t2, size), KeepFar(e, pts, t1, size))
    ensures |KeepFar(e, pts, t2, size)| <= |KeepFar(e, pts, t1, size)|
    decreases |pts|
  {
    var r1 := KeepFar(e, pts, t1, size);
    var r2 := KeepFar(e, pts, t2, size);
    if |pts| > 0 {
      var q := Global(e, pts[0]);
      var rest1 := KeepFar(e, pts[1..], t1, size);
      var rest2 := KeepFar(e, pts[1..], t2, size);
      KeepFarMonotoneInTrail(e, pts[1..], t1, t2, size);
      if !NearSomeTrailPoint(q, t2, size) {
        assert !NearSomeTrailPoint(q, t1, size);
        SubsequenceKeepsHead(rest2, pts[0], rest1);
      } else if !NearSomeTrailPoint(q, t1, size) {
        SubsequenceOfCons(rest2, pts[0], rest1);
      }
    }
    SubsequenceIsShorter(r2, r1);
  }

  /** Extending the trail by one sample never brings a trimmed point back. */
  lemma LongerTrailKeepsNoMore(e: Element, trail: seq<Point>, p: Point, size: real)
    ensures IsSubsequence(KeepFar(e, e.points, trail + [p], size), KeepFar(e, e.points, trail, size))
  {
    KeepFarMonotoneInTrail(e, e.points, trail, trail + [p], size);
  }

  /** When every point is far from the trail the filter keeps every point, in order. */
  lemma {:induction false} AllFarKeepsEverything(e: Element, pts: seq<Point>, trail: seq<Point>, size: real)
    requires forall q :: q in pts ==> Far(Global(e, q), trail, size)
    ensures KeepFar(e, pts, trail, size) == pts
    decreases |pts|
  {
    if |pts| > 0 {
      assert forall q :: q in pts[1..] ==> q in pts;
      AllFarKeepsEverything(e, pts[1..], trail, size);
      assert pts[0] in pts;
      assert pts == [pts[0]] + pts[1..];
    }
  }

  /** An empty trail trims nothing. */
  lemma EmptyTrailKeepsEverything(e: Element, pts: seq<Point>, size: real)
    ensures KeepFar(e, pts, [], size) == pts
  {
    AllFarKeepsEverything(e, pts, [], size);
  }

  /** When some point lies within the radius of some trail point, the filter drops at least one point. */
  lemma {:induction false} SomeNearDropsAPoint(e: Element, pts: seq<Point>, trail: seq<Point>, size: real, q: Point)
    requires q in pts && !Far(Global(e, q), trail, size)
    ensures |KeepFar(e, pts, trail, size)| < |pts|
    decreases |pts|
  {
    var rest := KeepFar(e, pts[1..], trail, size);
    SubsequenceIsShorter(rest, pts[1..]);
    if pts[0] != q {
      assert q in pts[1..];
      SomeNearDropsAPoint(e, pts[1..], trail, size, q);
    }
  }

  /**
   The deletion threshold of the erase functions, for a live element with at
   least two points: the copy is deleted exactly when fewer than two of its
   points are far from the trail, and otherwise carries exactly those points.
   */
  lemma TrimThreshold(e: Element, trail: seq<Point>, size: real)
    requires !e.isDeleted && |e.points| >= 2
    ensures TrimElement(e, trail, size).Some?
    ensures TrimElement(e, trail, size).value.isDeleted <==> |KeepFar(e, e.points, trail, size)| < 2
    ensures !TrimElement(e, trail, size).value.isDeleted ==>
              && IsSubsequence(TrimElement(e, trail, size).value.points, e.points)
              && forall q :: q in TrimElement(e, trail, size).value.points ==> Far(Global(e, q), trail, size)
  {
  }

  /** A longer trail never turns a deletion back into a trim. */
  lemma DeletionIsMonotoneInTrail(e: Element, t1: seq<Point>, t2: seq<Point>, size: real)
    requires !e.isDeleted && |e.points| >= 2
    requires forall t :: t in t1 ==> t in t2
    requires TrimElement(e, t1, size).value.isDeleted
    ensures TrimElement(e, t2, size).value.isDeleted
  {
    KeepFarMonotoneInTrail(e, e.points, t1, t2, size);
  }

  /** What finalize produces for a selected id: a trimmed copy of the scene's element under the same id. */
  lemma FinalizedEntry(app: App, s: Session, id: Id)
    requires s.trail.Some? && s.trail.value != []
    requires Selected(ArrayToMap(app.elements), s.elementsToErase, id)
    ensures id in Finalized(app, s)
    ensures var e := ArrayToMap(app.elements)[id];
            Finalized(app, s)[id] == TrimElement(e, s.trail.value, PixelEraserSize(app.state)).value
            && Finalized(app, s)[id].id == id && Trimmable(Finalized(app, s)[id])
  {
  }

  /** An eraser size of 0 trims with radius 10, exactly as a size of 10 does. */
  lemma ZeroSizeTrimsLikeTen(app: App, s: Session)
    requires app.state.currentEraserSize == 0.0
    ensures Finalized(app, s) == Finalized(app.(state := app.state.(currentEraserSize := 10.0)), s)
  {
  }

  // ---------------------------------------------------------------------
  // A concrete trim: a three-point line along the x axis and a trail
  // through its first two points, radius 5.

  const Line := Element("l", Linear, 0.0, 0.0, [Point(0.0, 0.0), Point(10.0, 0.0), Point(20.0, 0.0)], [], None, None, false, false)

  const Sweep := [Point(0.0, 0.0), Point(10.0, 0.0)]

  lemma SweepDistances()
    ensures WithinRadius(Point(0.0, 0.0), Point(0.0, 0.0), 5.0)
    ensures WithinRadius(Point(10.0, 0.0), Point(10.0, 0.0), 5.0)
    ensures !WithinRadius(Point(20.0, 0.0), Point(0.0, 0.0), 5.0)
    ensures !WithinRadius(Point(20.0, 0.0), Point(10.0, 0.0), 5.0)
  {
    assert Sq(0.0) == 0.0 && Sq(20.0) == 400.0 && Sq(10.0) == 100.0;
  }

  lemma NearOneOfTwo(q: Point, a: Point, b: Point, size: real)
    requires WithinRadius(q, a, size) || WithinRadius(q, b, size)
    ensures NearSomeTrailPoint(q, [a, b], size)
  {
    assert a in [a, b] && b in [a, b];
  }

  lemma FarFromBoth(q: Point, a: Point, b: Point, size: real)
    requires !WithinRadius(q, a, size) && !WithinRadius(q, b, size)
    ensures !NearSomeTrailPoint(q, [a, b], size)
  {
    assert forall t :: t in [a, b] ==> t == a || t == b;
  }

  lemma KeepFarStep(e: Element, pts: seq<Point>, trail: seq<Point>, size: real)
    requires |pts| > 0
    ensures NearSomeTrailPoint(Global(e, pts[0]), trail, size) ==>
              KeepFar(e, pts, trail, size) == KeepFar(e, pts[1..], trail, size)
    ensures !NearSomeTrailPoint(Global(e, pts[0]), trail, size) ==>
              KeepFar(e, pts, trail, size) == [pts[0]] + KeepFar(e, pts[1..], trail, size)
  {
  }

  /** A three-point element whose first two points are near the trail and whose last is far keeps only its last point. */
  lemma TwoNearOneFar(e: Element, trail: seq<Point>, size: real)
    requires |e.points| == 3
    requires NearSomeTrailPoint(Global(e, e.points[0]), trail, size)
    requires NearSomeTrailPoint(Global(e, e.points[1]), trail, size)
    requires !NearSomeTrailPoint(Global(e, e.points[2]), trail, size)
    ensures KeepFar(e, e.points, trail, size) == [e.points[2]]
  {
    var pts := e.points;
    KeepFarStep(e, pts[2..], trail, size);
    assert pts[2..][1..] == [];
    KeepFarStep(e, pts[1..], trail, size);
    assert pts[1..][1..] == pts[2..] && pts[2..] == [pts[2]];
    KeepFarStep(e, pts, trail, size);
  }

  lemma SweepNearness()
    ensures NearSomeTrailPoint(Point(0.0, 0.0), Sweep, 5.0)
    ensures NearSomeTrailPoint(Point(10.0, 0.0), Sweep, 5.0)
    ensures !NearSomeTrailPoint(Point(20.0, 0.0), Sweep, 5.0)
  {
    SweepDistances();
    NearOneOfTwo(Point(0.0, 0.0), Point(0.0, 0.0), Point(10.0, 0.0), 5.0);
    NearOneOfTwo(Point(10.0, 0.0), Point(0.0, 0.0), Point(10.0, 0.0), 5.0);
    FarFromBoth(Point(20.0, 0.0), Point(0.0, 0.0), Point(10.0, 0.0), 5.0);
  }

  /** An element at the origin sits where its local points say. */
  lemma GlobalAtOrigin(e: Element, q: Point)
    requires e.x == 0.0 && e.y == 0.0
    ensures Global(e, q) == q
  {
  }

  /** The points of `s1` on `e1` and of `s2` on `e2` sit at the same global positions, in order. */
  predicate SameGlobals(e1: Element, s1: seq<Point>, e2: Element, s2: seq<Point>) {
    |s1| == |s2| && forall i :: 0 <= i < |s1| ==> Global(e1, s1[i]) == Global(e2, s2[i])
  }

  lemma SameGlobalsTail(e1: Element, s1: seq<Point>, e2: Element, s2: seq<Point>)
    requires SameGlobals(e1, s1, e2, s2) && |s1| > 0
    ensures SameGlobals(e1, s1[1..], e2, s2[1..]) && Global(e1, s1[0]) == Global(e2, s2[0])
  {
    forall i | 0 <= i < |s1| - 1 ensures Global(e1, s1[1..][i]) == Global(e2, s2[1..][i]) {
      assert s1[1..][i] == s1[i + 1] && s2[1..][i] == s2[i + 1];
    }
  }

  lemma SameGlobalsCons(e1: Element, p1: Point, s1: seq<Point>, e2: Element, p2: Point, s2: seq<Point>)
    requires SameGlobals(e1, s1, e2, s2) && Global(e1, p1) == Global(e2, p2)
    ensures SameGlobals(e1, [p1] + s1, e2, [p2] + s2)
  {
    forall i | 0 <= i < |s1| + 1 ensures Global(e1, ([p1] + s1)[i]) == Global(e2, ([p2] + s2)[i]) {
      if i > 0 {
        assert ([p1] + s1)[i] == s1[i - 1] && ([p2] + s2)[i] == s2[i - 1];
      }
    }
  }

  /**
   The trim reads an element's points only through their global positions:
   two point lists at the same global positions, point by point, keep
   survivors at the same global positions.
   */
  lemma {:induction false} KeepFarDependsOnlyOnGlobalPositions(e1: Element, pts1: seq<Point>, e2: Element, pts2: seq<Point>, trail: seq<Point>, size: real)
    requires SameGlobals(e1, pts1, e2, pts2)
    ensures SameGlobals(e1, KeepFar(e1, pts1, trail, size), e2, KeepFar(e2, pts2, trail, size))
    decreases |pts1|
  {
    if |pts1| > 0 {
      SameGlobalsTail(e1, pts1, e2, pts2);
      KeepFarDependsOnlyOnGlobalPositions(e1, pts1[1..], e2, pts2[1..], trail, size);
      KeepFarUnfolds(e1, pts1, trail, size);
      KeepFarUnfolds(e2, pts2, trail, size);
      if !NearSomeTrailPoint(Global(e1, pts1[0]), trail, size) {
        SameGlobalsCons(e1, pts1[0], KeepFar(e1, pts1[1..], trail, size), e2, pts2[0], KeepFar(e2, pts2[1..], trail, size));
      }
    }
  }

  /** One step of the filter: the head survives exactly when it is far from the trail. */
  lemma KeepFarUnfolds(e: Element, pts: seq<Point>, trail: seq<Point>, size: real)
    requires |pts| > 0
    ensures KeepFar(e, pts, trail, size) ==
              if NearSomeTrailPoint(Global(e, pts[0]), trail, size) then KeepFar(e, pts[1..], trail, size)
              else [pts[0]] + KeepFar(e, pts[1..], trail, size)
  {
  }

  /** Hence two elements whose points sit at the same global positions are trimmed alike. */
  lemma SameGlobalPointsTrimAlike(e1: Element, e2: Element, trail: seq<Point>, size: real)
    requires SameGlobals(e1, e1.points, e2, e2.points)
    ensures TrimElement(e1, trail, size).None? <==> TrimElement(e2, trail, size).None?
    ensures TrimElement(e1, trail, size).Some? ==>
              TrimElement(e1, trail, size).value.isDeleted == (e1.isDeleted || |KeepFar(e1, e1.points, trail, size)| < 2)
              && (|KeepFar(e1, e1.points, trail, size)| < 2 <==> |KeepFar(e2, e2.points, trail, size)| < 2)
  {
    KeepFarDependsOnlyOnGlobalPositions(e1, e1.points, e2, e2.points, trail, size);
  }

  lemma SweepKeepsOnlyLastPoint(line: Element, sweep: seq<Point>)
    requires line.x == 0.0 && line.y == 0.0
    requires |line.points| == 3
    requires line.points[0] == Point(0.0, 0.0)
    requires line.points[1] == Point(10.0, 0.0)
    requires line.points[2] == Point(20.0, 0.0)
    requires sweep == Sweep
    ensures KeepFar(line, line.points, sweep, 5.0) == [Point(20.0, 0.0)]
  {
    SweepNearness();
    GlobalAtOrigin(line, line.points[0]);
    GlobalAtOrigin(line, line.points[1]);
    GlobalAtOrigin(line, line.points[2]);
    TwoNearOneFar(line, sweep, 5.0);
  }

  /** Only the third point survives, so the line is deleted rather than reduced to one point. */
  lemma SweptLineIsDeleted()
    ensures EraseFromLinearElement(Line, Sweep, 5.0) == Some(Line.(isDeleted := true))
  {
    SweepKeepsOnlyLastPoint(Line, Sweep);
  }
}
