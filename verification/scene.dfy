/**
 What the erasure sessions read from the application: the visible elements,
 the whole scene, the hit threshold and the application state; the geometry
 and group queries they call but whose code is not modelled (as oracles);
 and the per-gesture shape and segment caches.
 */
module Scene {
  import opened Base

  /** An outline shape, opaque to the erasure engine: only the point-in-shape oracle reads it. */
  datatype Shape = Shape(handle: int)

  type ElementsMap = map<Id, Element>

  /**
   The collaborators the erasure engine calls, as total functions:
   `shapeOf` is getElementShape, `segmentsOf` getElementLineSegments,
   `testsInside` shouldTestInside, `pointInShape` isPointInShape,
   `segmentsMeet(p, e, threshold)` is `lineSegmentIntersectionPoints(p, e, threshold) !== null`,
   and `membersOf` getElementsInGroup (a None key stands for the `undefined` group id).
   */
  datatype Oracles = Oracles(
    shapeOf: (Element, ElementsMap) -> Shape,
    segmentsOf: (Element, ElementsMap) -> seq<Segment>,
    testsInside: Element -> bool,
    pointInShape: (Point, Shape) -> bool,
    segmentsMeet: (Segment, Segment, real) -> bool,
    membersOf: (ElementsMap, Option<GroupId>) -> seq<Element>)

  /**
   The application as the sessions see it: `visible` is app.visibleElements,
   `elements` the scene including deleted elements, `hitThreshold`
   app.getElementHitThreshold(), and `state` the application state.
   */
  datatype App = App(
    visible: seq<Element>,
    elements: seq<Element>,
    hitThreshold: real,
    state: AppState)

  /** No two elements of `es` share an id, as in a well-formed scene. */
  predicate UniqueIds(es: seq<Element>) {
    forall i, j :: 0 <= i < j < |es| ==> es[i].id != es[j].id
  }

  /** `arrayToMap`: elements keyed by id, a later element replacing an earlier one with the same id. */
  function ArrayToMap(es: seq<Element>): (m: ElementsMap)
    ensures forall e :: e in es ==> e.id in m
    ensures forall id :: id in m ==> m[id] in es && m[id].id == id
    ensures forall i :: 0 <= i < |es| && LastWithItsId(es, i) ==> m[es[i].id] == es[i]
  {
    if |es| == 0 then map[]
    else
      var last := es[|es| - 1];
      var init := es[..|es| - 1];
      var m := ArrayToMap(init);
      assert forall e :: e in es ==> e in init || e == last;
      forall i | 0 <= i < |es| - 1 && LastWithItsId(es, i)
        ensures LastWithItsId(init, i) && es[i].id != last.id
      {
        assert es[i] == init[i];
      }
      m[last.id := last]
  }

  /** No element after position `i` shares the id of `es[i]`. */
  predicate LastWithItsId(es: seq<Element>, i: int)
    requires 0 <= i < |es|
  {
    forall j :: i < j < |es| ==> es[j].id != es[i].id
  }

  /** With unique ids every element is the last with its id, so the map holds each element under its id. */
  lemma ArrayToMapOfUniqueIds(es: seq<Element>)
    requires UniqueIds(es)
    ensures forall e :: e in es ==> ArrayToMap(es)[e.id] == e
  {
    forall e | e in es ensures ArrayToMap(es)[e.id] == e {
      var i :| 0 <= i < |es| && es[i] == e;
      assert LastWithItsId(es, i);
    }
  }

  /** `elements.filter((el) => !el.locked)`. */
  function Unlocked(es: seq<Element>): (r: seq<Element>)
    ensures forall e :: e in r <==> e in es && !e.locked
    ensures IsSubsequence(r, es)
  {
    if |es| == 0 then []
    else
      var rest := Unlocked(es[1..]);
      assert es == [es[0]] + es[1..];
      if es[0].locked then
        SubsequenceOfCons(rest, es[0], es[1..]);
        rest
      else
        SubsequenceKeepsHead(rest, es[0], es[1..]);
        [es[0]] + rest
  }

  /** The filter keeps every unlocked element as often as it occurs, and no locked one. */
  lemma {:induction false} UnlockedCounts(es: seq<Element>)
    ensures forall e :: multiset(Unlocked(es))[e] == if e.locked then 0 else multiset(es)[e]
    decreases |es|
  {
    if |es| > 0 {
      UnlockedCounts(es[1..]);
      assert es == [es[0]] + es[1..];
      assert multiset(es) == multiset{es[0]} + multiset(es[1..]);
      if !es[0].locked {
        assert Unlocked(es) == [es[0]] + Unlocked(es[1..]);
        assert multiset(Unlocked(es)) == multiset{es[0]} + multiset(Unlocked(es[1..]));
      }
    }
  }

  lemma {:induction false} SubsequenceKeepsUniqueIds(a: seq<Element>, b: seq<Element>)
    requires IsSubsequence(a, b)
    requires UniqueIds(b)
    ensures UniqueIds(a)
    decreases |b|
  {
    if |a| > 0 {
      assert UniqueIds(b[1..]);
      if a[0] == b[0] && IsSubsequence(a[1..], b[1..]) {
        SubsequenceKeepsUniqueIds(a[1..], b[1..]);
        SubsequenceIsShorter(a[1..], b[1..]);
        forall i, j | 0 <= i < j < |a| ensures a[i].id != a[j].id {
          if i == 0 {
            assert a[j] in b[1..];
          } else {
            assert a[i] == a[1..][i - 1] && a[j] == a[1..][j - 1];
          }
        }
      } else {
        SubsequenceKeepsUniqueIds(a, b[1..]);
      }
    }
  }

  /** The candidates of both sessions: the visible elements that are not locked. */
  function Candidates(app: App): seq<Element> {
    Unlocked(app.visible)
  }

  /** Every candidate is the element `emap` holds for its id. */
  ghost predicate MapsCandidates(emap: ElementsMap, cands: seq<Element>) {
    forall e :: e in cands ==> e.id in emap && emap[e.id] == e
  }

  /** In a scene with unique ids, the candidate map holds every candidate under its id. */
  lemma CandidatesAreMapped(app: App)
    requires UniqueIds(app.visible)
    ensures MapsCandidates(ArrayToMap(Candidates(app)), Candidates(app))
  {
    SubsequenceKeepsUniqueIds(Candidates(app), app.visible);
    ArrayToMapOfUniqueIds(Candidates(app));
  }

  /** Two elements of a scene with unique ids that share an id are the same element. */
  lemma SameIdSameElement(es: seq<Element>, x: Element, y: Element)
    requires UniqueIds(es)
    requires x in es && y in es && x.id == y.id
    ensures x == y
  {
    var i :| 0 <= i < |es| && es[i] == x;
    var j :| 0 <= j < |es| && es[j] == y;
    if i < j {
    } else if j < i {
    }
  }

  /** `scene.getNonDeletedElementsMap()`. */
  function NonDeletedMap(app: App): (m: ElementsMap)
    ensures forall id :: id in m ==> m[id] in app.elements && !m[id].isDeleted && m[id].id == id
    ensures forall i :: 0 <= i < |app.elements| && LastWithItsId(app.elements, i) && !app.elements[i].isDeleted ==>
              app.elements[i].id in m && m[app.elements[i].id] == app.elements[i]
    ensures UniqueIds(app.elements) ==> forall e :: e in app.elements && !e.isDeleted ==> e.id in m && m[e.id] == e
  {
    var all := ArrayToMap(app.elements);
    map id | id in all && !all[id].isDeleted :: all[id]
  }

  /** The ids `getElementsInGroup(nonDeletedElementsMap, key)` returns. */
  function GroupMemberIds(o: Oracles, app: App, key: Option<GroupId>): set<Id> {
    set e | e in o.membersOf(NonDeletedMap(app), key) :: e.id
  }

  /** The per-element shape and segment caches of one session. */
  datatype Caches = Caches(shapes: map<Id, Shape>, segments: map<Id, seq<Segment>>)

  const NoCaches := Caches(map[], map[])

  /** The cached outline of `e`, computing and recording it on a miss. */
  function CachedShape(o: Oracles, caches: Caches, e: Element, emap: ElementsMap): (r: (Shape, Caches))
    ensures e.id in caches.shapes ==> r.0 == caches.shapes[e.id]
    ensures r.1 == caches.(shapes := caches.shapes[e.id := r.0])
  {
    var shape := if e.id in caches.shapes then caches.shapes[e.id] else o.shapeOf(e, emap);
    (shape, caches.(shapes := caches.shapes[e.id := shape]))
  }

  /** The cached boundary segments of `e`, computing and recording them on a miss. */
  function CachedSegments(o: Oracles, caches: Caches, e: Element, emap: ElementsMap): (r: (seq<Segment>, Caches))
    ensures e.id in caches.segments ==> r.0 == caches.segments[e.id]
    ensures r.1 == caches.(segments := caches.segments[e.id := r.0])
  {
    var segs := if e.id in caches.segments then caches.segments[e.id] else o.segmentsOf(e, emap);
    (segs, caches.(segments := caches.segments[e.id := segs]))
  }

  /**
   Every cache entry for an id of `emap` is what the oracle computes for
   that element now: the caches are not stale with respect to `emap`.
   */
  ghost predicate Coherent(o: Oracles, caches: Caches, emap: ElementsMap) {
    && (forall id :: id in caches.shapes && id in emap ==> caches.shapes[id] == o.shapeOf(emap[id], emap))
    && (forall id :: id in caches.segments && id in emap ==> caches.segments[id] == o.segmentsOf(emap[id], emap))
  }

  /** The caches agree with the oracles on the current candidates of `app`. */
  ghost predicate CachesCurrent(o: Oracles, app: App, caches: Caches) {
    Coherent(o, caches, ArrayToMap(Candidates(app)))
  }

  /** Looking an element of `emap` up in coherent caches answers what the oracles answer, and keeps the caches coherent. */
  lemma CachedLookupIsTransparent(o: Oracles, caches: Caches, e: Element, emap: ElementsMap)
    requires Coherent(o, caches, emap)
    requires e.id in emap && emap[e.id] == e
    ensures CachedShape(o, caches, e, emap).0 == o.shapeOf(e, emap)
    ensures Coherent(o, CachedShape(o, caches, e, emap).1, emap)
    ensures CachedSegments(o, caches, e, emap).0 == o.segmentsOf(e, emap)
    ensures Coherent(o, CachedSegments(o, caches, e, emap).1, emap)
  {
  }

  /**
   The trail recorder both sessions inherit: the original points of the
   active trail, or None when no gesture is active. A sample extends the
   active trail and is dropped when none is active.
   */
  function AppendToTrail(trail: Option<seq<Point>>, p: Point): (r: Option<seq<Point>>)
    ensures r.Some? <==> trail.Some?
    ensures trail.Some? ==> |r.value| == |trail.value| + 1 && r.value[..|trail.value|] == trail.value && r.value[|trail.value|] == p
  {
    match trail
    case None => None
    case Some(t) => Some(t + [p])
  }
}
