/**
 Properties of the pixel eraser session that need induction over the
 candidate loop: which elements a sample marks, in terms of the uncached
 circle test, how a locked element can enter the marks, and a concrete scene
 showing that group siblings are not marked.
 */
module PixelEraserProperties {
  import opened Base
  import opened Geometry
  import opened Scene
  import opened PixelEraser

  /**
   The candidate loop, with coherent caches: every candidate the circle hits
   ends marked, every newly marked id is the id, bound text or container of
   a hit candidate, and the caches stay coherent.
   */
  lemma {:induction false} PixelPassSound(o: Oracles, c: Point, radius: real, emap: ElementsMap, cands: seq<Element>, m: PixelMarks)
    requires Coherent(o, m.caches, emap)
    requires MapsCandidates(emap, cands)
    ensures var r := PixelPass(o, c, radius, emap, cands, m);
            && Coherent(o, r.caches, emap)
            && (forall e :: e in cands && PixelHit(o, c, radius, e, emap) ==> e.id in r.elements)
            && (forall id :: id in r.elements && id !in m.elements ==>
                  exists e :: e in cands && PixelHit(o, c, radius, e, emap) && id in e.Dependents())
    decreases |cands|
  {
    if |cands| > 0 {
      var e := cands[0];
      var rest := cands[1..];
      var m1 := PixelVisit(o, c, radius, emap, e, m);
      TestPixelIntersectionIsPixelHit(o, c, radius, e, emap, m.caches);
      assert MapsCandidates(emap, rest);
      PixelPassSound(o, c, radius, emap, rest, m1);
      var r := PixelPass(o, c, radius, emap, rest, m1);
      forall x | x in cands && PixelHit(o, c, radius, x, emap)
        ensures x.id in r.elements
      {
        if x != e {
          assert x in rest;
        }
      }
      forall id | id in r.elements && id !in m.elements
        ensures exists x :: x in cands && PixelHit(o, c, radius, x, emap) && id in x.Dependents()
      {
        if id in m1.elements {
          assert PixelHit(o, c, radius, e, emap) && id in e.Dependents();
        } else {
          var x :| x in rest && PixelHit(o, c, radius, x, emap) && id in x.Dependents();
          assert x in cands;
        }
      }
    }
  }

  /**
   One update at sample `p`: every visible unlocked element the eraser circle
   touches is marked; every newly marked id is the id, bound text or
   container of such an element; and the caches stay current.
   */
  lemma UpdateSound(o: Oracles, app: App, s: Session, p: Point)
    requires UniqueIds(app.visible)
    requires CachesCurrent(o, app, s.caches)
    ensures var emap := ArrayToMap(Candidates(app));
            var radius := PixelEraserSize(app.state);
            var r := UpdateElementsToErase(o, app, s, p).session;
            && CachesCurrent(o, app, r.caches)
            && (forall e :: e in app.visible && !e.locked && PixelHit(o, p, radius, e, emap) ==> e.id in r.elementsToErase)
            && (forall id :: id in r.elementsToErase && id !in s.elementsToErase ==>
                  exists e :: e in app.visible && !e.locked && PixelHit(o, p, radius, e, emap) && id in e.Dependents())
  {
    CandidatesAreMapped(app);
    PixelPassSound(o, p, PixelEraserSize(app.state), ArrayToMap(Candidates(app)), Candidates(app),
                   PixelMarks(s.elementsToErase, s.caches));
  }

  /**
   A locked element is never tested: its id can enter the marks only as the
   bound text or the container of an unlocked element the circle touches.
   */
  lemma LockedEntersOnlyAsDependent(o: Oracles, app: App, s: Session, p: Point, x: Element)
    requires UniqueIds(app.visible)
    requires CachesCurrent(o, app, s.caches)
    requires x in app.visible && x.locked
    requires x.id !in s.elementsToErase
    requires x.id in UpdateElementsToErase(o, app, s, p).erased
    ensures exists e :: && e in app.visible && !e.locked && e.id != x.id
                        && PixelHit(o, p, PixelEraserSize(app.state), e, ArrayToMap(Candidates(app)))
                        && x.id in OptionSet(e.boundTextId) + OptionSet(e.containerId)
  {
    UpdateSound(o, app, s, p);
    var emap := ArrayToMap(Candidates(app));
    var e :| e in app.visible && !e.locked && PixelHit(o, p, PixelEraserSize(app.state), e, emap) && x.id in e.Dependents();
    if e.id == x.id {
      SameIdSameElement(app.visible, e, x);
      assert false;
    }
  }

  /** A new gesture keeps nothing of the previous one. */
  lemma StartPathForgetsPreviousGesture(s1: Session, s2: Session, p: Point)
    ensures StartPath(s1, p) == StartPath(s2, p)
  {
  }

  // ---------------------------------------------------------------------
  // A concrete scene: two rectangles of group g1; only "a" has a boundary
  // segment, which starts at the sample point.

  function G1Member(id: Id): Element {
    Element(id, Generic, 0.0, 0.0, [], ["g1"], None, None, false, false)
  }

  const Origin := Point(0.0, 0.0)

  function SceneOracles(): Oracles {
    Oracles(
      (e: Element, m: ElementsMap) => Shape(0),
      (e: Element, m: ElementsMap) => if e.id == "a" then [Segment(Origin, Point(1.0, 1.0))] else [],
      (e: Element) => false,
      (p: Point, sh: Shape) => false,
      (a: Segment, b: Segment, t: real) => true,
      (m: ElementsMap, k: Option<GroupId>) => if k == Some("g1") then [G1Member("a"), G1Member("b")] else [])
  }

  const SceneApp := App([G1Member("a"), G1Member("b")], [G1Member("a"), G1Member("b")], 1.0, AppState(Eraser, Light, 5.0, true, map[]))

  lemma SceneCandidates()
    ensures Candidates(SceneApp) == [G1Member("a"), G1Member("b")]
  {
    assert [G1Member("a"), G1Member("b")][1..] == [G1Member("b")] && [G1Member("b")][1..] == [];
    assert Unlocked([G1Member("b")]) == [G1Member("b")];
  }

  const SceneSegment := Segment(Origin, Point(1.0, 1.0))

  lemma SceneSegmentTouched()
    ensures CircleMeetsSegment(Origin, 5.0, SceneSegment)
  {
    assert Sq(0.0) == 0.0;
    assert Dist2(Origin, SceneSegment.a) == 0.0;
  }

  /** A boundary segment the circle meets makes the cached test report a hit. */
  lemma SegmentWitnessesHit(o: Oracles, c: Point, radius: real, e: Element, emap: ElementsMap, caches: Caches, s: Segment)
    requires s in CachedSegments(o, CachedShape(o, caches, e, emap).1, e, emap).0
    requires CircleMeetsSegment(c, radius, s)
    ensures TestPixelIntersection(o, c, radius, e, emap, caches).0
  {
  }

  /** Without inside testing and without boundary segments the cached test reports no hit. */
  lemma NoSegmentsNoHit(o: Oracles, c: Point, radius: real, e: Element, emap: ElementsMap, caches: Caches)
    requires !o.testsInside(e)
    requires CachedSegments(o, CachedShape(o, caches, e, emap).1, e, emap).0 == []
    ensures !TestPixelIntersection(o, c, radius, e, emap, caches).0
  {
  }

  lemma SceneSegmentsOfA(emap: ElementsMap, caches: Caches)
    requires "a" in caches.segments ==> caches.segments["a"] == [SceneSegment]
    ensures CachedSegments(SceneOracles(), caches, G1Member("a"), emap).0 == [SceneSegment]
  {
    assert SceneOracles().segmentsOf(G1Member("a"), emap) == [SceneSegment];
  }

  lemma SceneCircleTouchesA(emap: ElementsMap, caches: Caches)
    requires "a" in caches.segments ==> caches.segments["a"] == [SceneSegment]
    ensures TestPixelIntersection(SceneOracles(), Origin, 5.0, G1Member("a"), emap, caches).0
  {
    var afterShape := CachedShape(SceneOracles(), caches, G1Member("a"), emap).1;
    SceneSegmentsOfA(emap, afterShape);
    SceneSegmentTouched();
    SegmentWitnessesHit(SceneOracles(), Origin, 5.0, G1Member("a"), emap, caches, SceneSegment);
  }

  lemma SceneCircleMissesB(emap: ElementsMap, caches: Caches)
    requires "b" in caches.segments ==> caches.segments["b"] == []
    ensures !TestPixelIntersection(SceneOracles(), Origin, 5.0, G1Member("b"), emap, caches).0
  {
    var o := SceneOracles();
    assert o.segmentsOf(G1Member("b"), emap) == [];
    assert !o.testsInside(G1Member("b"));
    NoSegmentsNoHit(o, Origin, 5.0, G1Member("b"), emap, caches);
  }

  /** A pass over two candidates visits the first, then the second. */
  lemma PassOfTwo(o: Oracles, c: Point, radius: real, emap: ElementsMap, a: Element, b: Element, m: PixelMarks)
    ensures PixelPass(o, c, radius, emap, [a, b], m) == PixelVisit(o, c, radius, emap, b, PixelVisit(o, c, radius, emap, a, m))
  {
    var m1 := PixelVisit(o, c, radius, emap, a, m);
    assert [a, b][1..] == [b];
    assert PixelPass(o, c, radius, emap, [a, b], m) == PixelPass(o, c, radius, emap, [b], m1);
    assert [b][1..] == [];
    assert PixelPass(o, c, radius, emap, [b], m1) == PixelPass(o, c, radius, emap, [], PixelVisit(o, c, radius, emap, b, m1));
  }

  lemma SceneVisitsA(emap: ElementsMap)
    ensures var m1 := PixelVisit(SceneOracles(), Origin, 5.0, emap, G1Member("a"), PixelMarks({}, NoCaches));
            m1.elements == {"a"} && "b" !in m1.caches.segments
  {
    SceneCircleTouchesA(emap, NoCaches);
    assert G1Member("a").Dependents() == {"a"};
  }

  lemma SceneVisitsB(emap: ElementsMap, m: PixelMarks)
    requires "b" !in m.caches.segments
    ensures PixelVisit(SceneOracles(), Origin, 5.0, emap, G1Member("b"), m).elements == m.elements
  {
    SceneCircleMissesB(emap, m.caches);
  }

  /**
   Unlike the stroke eraser, the pixel eraser does not expand groups: touching
   "a" marks "a" alone, though "b" shares its group.
   */
  lemma GroupSiblingsAreNotMarked()
    ensures UpdateElementsToErase(SceneOracles(), SceneApp, Initial.(trail := Some([Origin])), Origin).erased == {"a"}
  {
    SceneCandidates();
    assert PixelEraserSize(SceneApp.state) == 5.0;
    var emap := ArrayToMap([G1Member("a"), G1Member("b")]);
    var m0 := PixelMarks({}, NoCaches);
    PassOfTwo(SceneOracles(), Origin, 5.0, emap, G1Member("a"), G1Member("b"), m0);
    SceneVisitsA(emap);
    SceneVisitsB(emap, PixelVisit(SceneOracles(), Origin, 5.0, emap, G1Member("a"), m0));
  }
}
