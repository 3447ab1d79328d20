/**
 The stroke eraser session (EraserTrail): each new trail sample forms at most
 one path segment from the two newest trail points; elements the segment hits
 are marked (forward mode) or unmarked (restore mode) together with their
 bound text, their container and, through the element's last group id, their
 whole group.
 */
module StrokeEraser {
  import opened Base
  import opened Scene

  /** POINTS_ON_TRAIL: how many of the newest trail points form the tested path. */
  const PointsOnTrail: int := 2

  /**
   The session: the active trail (None when no gesture is active), the ids
   marked for erasure, the group keys whose membership was marked as a
   unit, and the shape and segment caches.
   */
  datatype Session = Session(
    trail: Option<seq<Point>>,
    elementsToErase: set<Id>,
    groupsToErase: set<Option<GroupId>>,
    caches: Caches)

  const Initial := Session(None, {}, {}, NoCaches)

  /** `Array.prototype.slice(start)`: a negative start counts from the end, clamped to 0. */
  function SliceFrom<T>(s: seq<T>, start: int): (r: seq<T>)
    ensures |r| <= |s| && r == s[|s| - |r|..]
    ensures 0 <= start <= |s| ==> |r| == |s| - start
    ensures -|s| <= start < 0 ==> |r| == -start
    ensures start < -|s| ==> r == s
    ensures start >= |s| ==> r == []
  {
    var from := if start < 0 then (if |s| + start < 0 then 0 else |s| + start)
                else if start > |s| then |s| else start;
    s[from..]
  }

  /** `eraserPath.slice(eraserPath.length - POINTS_ON_TRAIL)`. */
  function TrailWindow(trail: seq<Point>): seq<Point> {
    SliceFrom(trail, |trail| - PointsOnTrail)
  }

  /** The window is the newest two points of the trail, or the whole trail when it is shorter. */
  lemma TrailWindowIsNewestPoints(trail: seq<Point>)
    ensures |TrailWindow(trail)| == if |trail| < 2 then |trail| else 2
    ensures TrailWindow(trail) == trail[|trail| - |TrailWindow(trail)|..]
  {
  }

  /** The `reduce` that joins consecutive path points into segments. */
  function PathSegments(path: seq<Point>): (r: seq<Segment>)
    ensures |r| == if |path| == 0 then 0 else |path| - 1
    ensures forall i :: 0 <= i < |r| ==> r[i] == Segment(path[i], path[i + 1])
  {
    if |path| < 2 then []
    else PathSegments(path[..|path| - 1]) + [Segment(path[|path| - 2], path[|path| - 1])]
  }

  /** The points of the current trail the update looks at (`getCurrentTrail()?.originalPoints || []`, windowed). */
  function CurrentPath(s: Session): seq<Point> {
    match s.trail
    case None => []
    case Some(t) => TrailWindow(t)
  }

  /**
   At most one path segment is ever tested: exactly one, joining the two
   newest points, once the active trail has two points, and none before.
   */
  lemma AtMostOneSegment(s: Session)
    ensures |PathSegments(CurrentPath(s))| <= 1
    ensures |PathSegments(CurrentPath(s))| == 1 <==> s.trail.Some? && |s.trail.value| >= 2
    ensures s.trail.Some? && |s.trail.value| >= 2 ==>
              var t := s.trail.value;
              PathSegments(CurrentPath(s)) == [Segment(t[|t| - 2], t[|t| - 1])]
  {
    if s.trail.Some? {
      TrailWindowIsNewestPoints(s.trail.value);
    }
  }

  /**
   The stroke hit test without caches: an inside-testable element whose shape
   contains the newest path point is hit; otherwise it is hit when some path
   segment meets some of its boundary segments within the hit threshold.
   */
  ghost predicate StrokeHit(o: Oracles, app: App, pathSegments: seq<Segment>, e: Element, emap: ElementsMap)
    requires |pathSegments| > 0
  {
    || (o.testsInside(e) && o.pointInShape(pathSegments[|pathSegments| - 1].b, o.shapeOf(e, emap)))
    || exists ps, es :: ps in pathSegments && es in o.segmentsOf(e, emap) && o.segmentsMeet(ps, es, app.hitThreshold)
  }

  /** fullStrokeEraserTest: the hit test through the session caches. */
  function FullStrokeEraserTest(o: Oracles, app: App, pathSegments: seq<Segment>, e: Element, emap: ElementsMap, caches: Caches): (r: (bool, Caches))
    requires |pathSegments| > 0
    ensures r.1.shapes.Keys == caches.shapes.Keys + {e.id}
    ensures caches.segments.Keys <= r.1.segments.Keys <= caches.segments.Keys + {e.id}
    ensures e.id in caches.shapes ==> r.1.shapes == caches.shapes
    ensures e.id in caches.segments ==> r.1.segments == caches.segments
    ensures forall id :: id in caches.shapes && id != e.id ==> r.1.shapes[id] == caches.shapes[id]
    ensures forall id :: id in caches.segments && id != e.id ==> r.1.segments[id] == caches.segments[id]
    ensures e.id in caches.shapes && o.testsInside(e) && o.pointInShape(pathSegments[|pathSegments| - 1].b, caches.shapes[e.id]) ==> r.0
  {
    var (shape, afterShape) := CachedShape(o, caches, e, emap);
    var lastPoint := pathSegments[|pathSegments| - 1].b;
    if o.testsInside(e) && o.pointInShape(lastPoint, shape) then (true, afterShape)
    else
      var (segments, afterSegments) := CachedSegments(o, afterShape, e, emap);
      (exists ps, es :: ps in pathSegments && es in segments && o.segmentsMeet(ps, es, app.hitThreshold), afterSegments)
  }

  /** With coherent caches the cached test answers exactly the uncached one, and the caches stay coherent. */
  lemma FullStrokeEraserTestIsStrokeHit(o: Oracles, app: App, pathSegments: seq<Segment>, e: Element, emap: ElementsMap, caches: Caches)
    requires |pathSegments| > 0
    requires Coherent(o, caches, emap)
    requires e.id in emap && emap[e.id] == e
    ensures FullStrokeEraserTest(o, app, pathSegments, e, emap, caches).0 <==> StrokeHit(o, app, pathSegments, e, emap)
    ensures Coherent(o, FullStrokeEraserTest(o, app, pathSegments, e, emap, caches).1, emap)
  {
    CachedLookupIsTransparent(o, caches, e, emap);
    var (_, afterShape) := CachedShape(o, caches, e, emap);
    CachedLookupIsTransparent(o, afterShape, e, emap);
  }

  /**
   eraserTest: whatever pixelEraserEnabled says, the test is the stroke test,
   so its answer is the one it gives with pixel erasing switched off.
   */
  function EraserTest(o: Oracles, app: App, pathSegments: seq<Segment>, e: Element, emap: ElementsMap, caches: Caches): (r: (bool, Caches))
    requires |pathSegments| > 0
    ensures r == FullStrokeEraserTest(o, app.(state := app.state.(pixelEraserEnabled := false)), pathSegments, e, emap, caches)
  {
    FullStrokeEraserTest(o, app, pathSegments, e, emap, caches)
  }

  /** The marks being updated within one pass over the candidates. */
  datatype Marks = Marks(elements: set<Id>, groups: set<Option<GroupId>>, caches: Caches)

  /**
   A hit on `e` accounts for a change to the mark of `id`: `id` is the
   element, its bound text or its container, or `id` is a member of the
   element's last group and that group key is among `toggled`, the keys the
   pass newly recorded (forward mode) or dropped (restore mode).
   */
  predicate Accounts(o: Oracles, app: App, e: Element, id: Id, toggled: set<Option<GroupId>>) {
    || id in e.Dependents()
    || (e.ShallowestGroupId() in toggled && id in GroupMemberIds(o, app, e.ShallowestGroupId()))
  }

  /** Accounting for a change stays true when more group keys count as toggled. */
  lemma AccountsWiden(o: Oracles, app: App, e: Element, id: Id, t1: set<Option<GroupId>>, t2: set<Option<GroupId>>)
    requires t1 <= t2 && Accounts(o, app, e, id, t1)
    ensures Accounts(o, app, e, id, t2)
  {
  }

  /** Every recorded group has all its current members marked. */
  ghost predicate GroupsClosed(o: Oracles, app: App, m: Marks) {
    forall k :: k in m.groups ==> GroupMemberIds(o, app, k) <= m.elements
  }

  /** One forward-mode iteration of the candidate loop. */
  function MarkVisit(o: Oracles, app: App, segs: seq<Segment>, emap: ElementsMap, e: Element, m: Marks): (r: Marks)
    requires |segs| > 0
    ensures m.elements <= r.elements && m.groups <= r.groups
    ensures forall id :: id in r.elements && id !in m.elements ==> Accounts(o, app, e, id, r.groups - m.groups)
    ensures r.groups - m.groups <= {e.ShallowestGroupId()}
    ensures e.id in m.elements ==> r == m
    ensures e.id !in m.elements ==>
              var hit := EraserTest(o, app, segs, e, emap, m.caches).0;
              var key := e.ShallowestGroupId();
              && (hit && key in m.groups ==> r.elements == m.elements + e.Dependents() && r.groups == m.groups)
              && (hit && key !in m.groups ==>
                    r.elements == m.elements + GroupMemberIds(o, app, key) + e.Dependents() && r.groups == m.groups + {key})
              && (!hit ==> r.elements == m.elements && r.groups == m.groups)
    ensures GroupsClosed(o, app, m) ==> GroupsClosed(o, app, r)
  {
    if e.id in m.elements then m
    else
      var (hit, caches) := EraserTest(o, app, segs, e, emap, m.caches);
      if !hit then m.(caches := caches)
      else
        var key := e.ShallowestGroupId();
        var grouped := if key !in m.groups then m.elements + GroupMemberIds(o, app, key) else m.elements;
        Marks(grouped + e.Dependents(), m.groups + {key}, caches)
  }

  /** The forward-mode loop over the candidates, in order. */
  function MarkPass(o: Oracles, app: App, segs: seq<Segment>, emap: ElementsMap, cands: seq<Element>, m: Marks): (r: Marks)
    requires |segs| > 0
    ensures m.elements <= r.elements && m.groups <= r.groups
    ensures forall id :: id in r.elements && id !in m.elements ==> exists e :: e in cands && Accounts(o, app, e, id, r.groups - m.groups)
    ensures forall k :: k in r.groups && k !in m.groups ==> exists e :: e in cands && k == e.ShallowestGroupId()
    ensures GroupsClosed(o, app, m) ==> GroupsClosed(o, app, r)
    decreases |cands|
  {
    if |cands| == 0 then m
    else
      var m1 := MarkVisit(o, app, segs, emap, cands[0], m);
      var r := MarkPass(o, app, segs, emap, cands[1..], m1);
      AccountsThroughPass(o, app, cands, m.elements, m1.elements, r.elements, m.groups, m1.groups, r.groups);
      r
  }

  /**
   The accounting of one visit followed by the rest of a pass, read as the
   accounting of the whole pass: new ids are accounted for by the first
   candidate or by a later one, against the keys the whole pass toggled.
   */
  lemma AccountsThroughPass(o: Oracles, app: App, cands: seq<Element>,
                            e0: set<Id>, e1: set<Id>, e2: set<Id>,
                            g0: set<Option<GroupId>>, g1: set<Option<GroupId>>, g2: set<Option<GroupId>>)
    requires |cands| > 0
    requires g0 <= g1 <= g2
    requires forall id :: id in e1 && id !in e0 ==> Accounts(o, app, cands[0], id, g1 - g0)
    requires forall id :: id in e2 && id !in e1 ==> exists e :: e in cands[1..] && Accounts(o, app, e, id, g2 - g1)
    ensures forall id :: id in e2 && id !in e0 && id !in e1 ==> exists e :: e in cands && Accounts(o, app, e, id, g2 - g0)
    ensures forall id :: id in e1 && id !in e0 ==> exists e :: e in cands && Accounts(o, app, e, id, g2 - g0)
  {
    forall id | id in e2 && id !in e0 && id !in e1
      ensures exists e :: e in cands && Accounts(o, app, e, id, g2 - g0)
    {
      var e :| e in cands[1..] && Accounts(o, app, e, id, g2 - g1);
      AccountsWiden(o, app, e, id, g2 - g1, g2 - g0);
      assert e in cands;
    }
    forall id | id in e1 && id !in e0
      ensures exists e :: e in cands && Accounts(o, app, e, id, g2 - g0)
    {
      AccountsWiden(o, app, cands[0], id, g1 - g0, g2 - g0);
      assert cands[0] in cands;
    }
  }

  /** One restore-mode iteration of the candidate loop. */
  function RestoreVisit(o: Oracles, app: App, segs: seq<Segment>, emap: ElementsMap, e: Element, m: Marks): (r: Marks)
    requires |segs| > 0
    ensures r.elements <= m.elements && r.groups <= m.groups
    ensures forall id :: id in m.elements && id !in r.elements ==> Accounts(o, app, e, id, m.groups - r.groups)
    ensures m.groups - r.groups <= {e.ShallowestGroupId()}
    ensures forall k :: k in m.groups && k !in r.groups ==> GroupMemberIds(o, app, k) !! r.elements
    ensures e.id !in m.elements ==> r == m
    ensures e.id in m.elements ==>
              var hit := EraserTest(o, app, segs, e, emap, m.caches).0;
              var key := e.ShallowestGroupId();
              && (hit && key !in m.groups ==> r.elements == m.elements - e.Dependents() && r.groups == m.groups)
              && (hit && key in m.groups ==>
                    r.elements == m.elements - GroupMemberIds(o, app, key) - e.Dependents() && r.groups == m.groups - {key})
              && (!hit ==> r.elements == m.elements && r.groups == m.groups)
  {
    if e.id !in m.elements then m
    else
      var (hit, caches) := EraserTest(o, app, segs, e, emap, m.caches);
      if !hit then m.(caches := caches)
      else
        var key := e.ShallowestGroupId();
        var ungrouped := if key in m.groups then m.elements - GroupMemberIds(o, app, key) else m.elements;
        Marks(ungrouped - e.Dependents(), m.groups - {key}, caches)
  }

  /** The restore-mode loop over the candidates, in order. */
  function RestorePass(o: Oracles, app: App, segs: seq<Segment>, emap: ElementsMap, cands: seq<Element>, m: Marks): (r: Marks)
    requires |segs| > 0
    ensures r.elements <= m.elements && r.groups <= m.groups
    ensures forall id :: id in m.elements && id !in r.elements ==>
              exists e :: e in cands && e.id in m.elements && Accounts(o, app, e, id, m.groups - r.groups)
    ensures forall k :: k in m.groups && k !in r.groups ==> GroupMemberIds(o, app, k) !! r.elements
    decreases |cands|
  {
    if |cands| == 0 then m
    else RestorePass(o, app, segs, emap, cands[1..], RestoreVisit(o, app, segs, emap, cands[0], m))
  }

  /** The result of one update: the new session and the ids reported for live feedback. */
  datatype Update = Update(session: Session, erased: set<Id>)

  /**
   updateElementsToBeErased: with no path segment nothing is tested and
   nothing reported; otherwise the candidate loop runs in the requested
   mode and the whole mark set is reported.
   */
  function UpdateElementsToBeErased(o: Oracles, app: App, s: Session, restore: bool): (r: Update)
    ensures |PathSegments(CurrentPath(s))| == 0 ==> r.session == s && r.erased == {}
    ensures |PathSegments(CurrentPath(s))| > 0 ==> r.erased == r.session.elementsToErase
    ensures r.session.trail == s.trail
    ensures !restore ==> s.elementsToErase <= r.session.elementsToErase && s.groupsToErase <= r.session.groupsToErase
    ensures restore ==> r.session.elementsToErase <= s.elementsToErase && r.session.groupsToErase <= s.groupsToErase
  {
    var segs := PathSegments(CurrentPath(s));
    if |segs| == 0 then Update(s, {})
    else
      var cands := Candidates(app);
      var emap := ArrayToMap(cands);
      var m := Marks(s.elementsToErase, s.groupsToErase, s.caches);
      var m' := if restore then RestorePass(o, app, segs, emap, cands, m) else MarkPass(o, app, segs, emap, cands, m);
      Update(Session(s.trail, m'.elements, m'.groups, m'.caches), m'.elements)
  }

  /** addPointToPath: record the sample, then update the marks. */
  function AddPointToPath(o: Oracles, app: App, s: Session, p: Point, restore: bool): (r: Update)
    ensures r.session.trail == AppendToTrail(s.trail, p)
    ensures s.trail.None? ==> r.session == s && r.erased == {}
    ensures s.trail.Some? && |s.trail.value| >= 1 ==> r.erased == r.session.elementsToErase
  {
    UpdateElementsToBeErased(o, app, s.(trail := AppendToTrail(s.trail, p)), restore)
  }

  /** endPath: drop the trail, both mark sets and the segment cache; the shape cache is kept. */
  function EndPath(s: Session): (r: Session)
    ensures r.trail.None? && r.elementsToErase == {} && r.groupsToErase == {}
    ensures r.caches.segments == map[] && r.caches.shapes == s.caches.shapes
  {
    Session(None, {}, {}, Caches(s.caches.shapes, map[]))
  }

  /** startPath: end any previous path, then start a trail at `p` with nothing marked. */
  function StartPath(s: Session, p: Point): (r: Session)
    ensures r.trail == Some([p]) && r.elementsToErase == {} && r.groupsToErase == {}
    ensures r.caches.segments == map[] && r.caches.shapes == s.caches.shapes
  {
    EndPath(s).(trail := Some([p]), elementsToErase := {})
  }
}
