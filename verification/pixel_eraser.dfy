/**
 The pixel eraser session (PixelEraserTrail) while a gesture is in progress:
 every sample tests the visible unlocked elements against a circle centred
 on the sample, and marks each element it touches together with its bound
 text and its container. Marks only grow until the gesture ends.
 */
module PixelEraser {
  import opened Base
  import opened Geometry
  import opened Scene

  /** The radius used when the eraser size is 0 (`currentEraserSize || 10`). */
  const DefaultPixelEraserSize: real := 10.0

  /** The eraser radius the pixel eraser tests and trims with. */
  function PixelEraserSize(state: AppState): (r: real)
    ensures state.currentEraserSize != 0.0 ==> r == state.currentEraserSize
    ensures state.currentEraserSize == 0.0 ==> r == DefaultPixelEraserSize
  {
    OrDefault(state.currentEraserSize, DefaultPixelEraserSize)
  }

  /** The session: the active trail (None when no gesture is active), the marked ids and the caches. */
  datatype Session = Session(trail: Option<seq<Point>>, elementsToErase: set<Id>, caches: Caches)

  const Initial := Session(None, {}, NoCaches)

  /**
   The circle hit test without caches: an inside-testable element whose shape
   contains the centre is hit; otherwise it is hit when the circle meets one
   of its boundary segments.
   */
  ghost predicate PixelHit(o: Oracles, c: Point, r: real, e: Element, emap: ElementsMap) {
    || (o.testsInside(e) && o.pointInShape(c, o.shapeOf(e, emap)))
    || exists s :: s in o.segmentsOf(e, emap) && CircleMeetsSegment(c, r, s)
  }

  /** testPixelIntersection: the circle hit test through the session caches. */
  function TestPixelIntersection(o: Oracles, c: Point, radius: real, e: Element, emap: ElementsMap, caches: Caches): (r: (bool, Caches))
    ensures r.1.shapes.Keys == caches.shapes.Keys + {e.id}
    ensures caches.segments.Keys <= r.1.segments.Keys <= caches.segments.Keys + {e.id}
    ensures e.id in caches.shapes ==> r.1.shapes == caches.shapes
    ensures e.id in caches.segments ==> r.1.segments == caches.segments
    ensures forall id :: id in caches.shapes && id != e.id ==> r.1.shapes[id] == caches.shapes[id]
    ensures forall id :: id in caches.segments && id != e.id ==> r.1.segments[id] == caches.segments[id]
    ensures e.id in caches.shapes && o.testsInside(e) && o.pointInShape(c, caches.shapes[e.id]) ==> r.0
  {
    var (shape, afterShape) := CachedShape(o, caches, e, emap);
    if o.testsInside(e) && o.pointInShape(c, shape) then (true, afterShape)
    else
      var (segments, afterSegments) := CachedSegments(o, afterShape, e, emap);
      (exists s :: s in segments && CircleMeetsSegment(c, radius, s), afterSegments)
  }

  /** With coherent caches the cached test answers exactly the uncached one, and the caches stay coherent. */
  lemma TestPixelIntersectionIsPixelHit(o: Oracles, c: Point, radius: real, e: Element, emap: ElementsMap, caches: Caches)
    requires Coherent(o, caches, emap)
    requires e.id in emap && emap[e.id] == e
    ensures TestPixelIntersection(o, c, radius, e, emap, caches).0 <==> PixelHit(o, c, radius, e, emap)
    ensures Coherent(o, TestPixelIntersection(o, c, radius, e, emap, caches).1, emap)
  {
    CachedLookupIsTransparent(o, caches, e, emap);
    var (_, afterShape) := CachedShape(o, caches, e, emap);
    CachedLookupIsTransparent(o, afterShape, e, emap);
  }

  /**
   The pixel hit in geometric terms: the centre lies inside an inside-testable
   shape, or some point of some boundary segment lies within the radius.
   */
  lemma PixelHitIsGeometric(o: Oracles, c: Point, r: real, e: Element, emap: ElementsMap)
    ensures PixelHit(o, c, r, e, emap) <==>
              || (o.testsInside(e) && o.pointInShape(c, o.shapeOf(e, emap)))
              || exists s :: s in o.segmentsOf(e, emap) && SegmentPointWithin(c, r, s)
  {
    forall s | s in o.segmentsOf(e, emap) {
      CircleMeetsSegmentExact(c, r, s);
    }
  }

  /** The marks being updated within one pass over the candidates. */
  datatype PixelMarks = PixelMarks(elements: set<Id>, caches: Caches)

  /** One iteration of the candidate loop: skip a marked element, else test it and mark it with its dependents on a hit. */
  function PixelVisit(o: Oracles, c: Point, radius: real, emap: ElementsMap, e: Element, m: PixelMarks): (r: PixelMarks)
    ensures m.elements <= r.elements
    ensures r.elements - m.elements <= e.Dependents()
    ensures e.id in m.elements ==> r == m
    ensures e.id !in m.elements ==>
              var hit := TestPixelIntersection(o, c, radius, e, emap, m.caches).0;
              && (hit ==> e.Dependents() <= r.elements)
              && (!hit ==> r.elements == m.elements)
  {
    if e.id in m.elements then m
    else
      var (hit, caches) := TestPixelIntersection(o, c, radius, e, emap, m.caches);
      if hit then PixelMarks(m.elements + e.Dependents(), caches)
      else m.(caches := caches)
  }

  /** The candidate loop, in order. */
  function PixelPass(o: Oracles, c: Point, radius: real, emap: ElementsMap, cands: seq<Element>, m: PixelMarks): (r: PixelMarks)
    ensures m.elements <= r.elements
    ensures forall id :: id in r.elements && id !in m.elements ==> exists e :: e in cands && id in e.Dependents()
    decreases |cands|
  {
    if |cands| == 0 then m
    else PixelPass(o, c, radius, emap, cands[1..], PixelVisit(o, c, radius, emap, cands[0], m))
  }

  /** The result of one update: the new session and the ids reported for live feedback. */
  datatype Update = Update(session: Session, erased: set<Id>)

  /**
   updateElementsToErase: test the circle at the sample `p` against every
   candidate; the report is the whole mark set, which only grows.
   */
  function UpdateElementsToErase(o: Oracles, app: App, s: Session, p: Point): (r: Update)
    ensures r.erased == r.session.elementsToErase
    ensures s.elementsToErase <= r.session.elementsToErase
    ensures forall id :: id in r.erased && id !in s.elementsToErase ==>
              exists e :: e in app.visible && !e.locked && id in e.Dependents()
    ensures r.session.trail == s.trail
  {
    var cands := Candidates(app);
    var m := PixelPass(o, p, PixelEraserSize(app.state), ArrayToMap(cands), cands, PixelMarks(s.elementsToErase, s.caches));
    Update(Session(s.trail, m.elements, m.caches), m.elements)
  }

  /**
   addPointToPath: record the sample, then update the marks around it. The
   update runs even when no gesture is active, and then the sample is not
   recorded.
   */
  function AddPointToPath(o: Oracles, app: App, s: Session, p: Point): (r: Update)
    ensures r.session.trail == AppendToTrail(s.trail, p)
    ensures r.erased == r.session.elementsToErase
    ensures s.elementsToErase <= r.session.elementsToErase
  {
    UpdateElementsToErase(o, app, s.(trail := AppendToTrail(s.trail, p)), p)
  }

  /** endPath: drop the trail, the marks and both caches. */
  function EndPath(s: Session): (r: Session)
    ensures r.trail.None? && r.elementsToErase == {}
    ensures r.caches.shapes == map[] && r.caches.segments == map[]
  {
    Session(None, {}, NoCaches)
  }

  /** startPath: end any previous gesture, then start a trail at `p` with nothing marked. */
  function StartPath(s: Session, p: Point): (r: Session)
    ensures r.trail == Some([p]) && r.elementsToErase == {}
    ensures r.caches == NoCaches
  {
    EndPath(s).(trail := Some([p]), elementsToErase := {})
  }
}
