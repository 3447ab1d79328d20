/**
 The pixel eraser's finalize step: every marked freedraw or linear element
 loses the points that lie within the eraser radius of some trail point, and
 is deleted when fewer than two points survive.
 */
module PixelTrim {
  import opened Base
  import opened Geometry
  import opened Scene
  import opened PixelEraser

  /** The global position of the element point `p` (`element.x + p[0]`, `element.y + p[1]`). */
  function Global(e: Element, p: Point): Point {
    Point(e.x + p.x, e.y + p.y)
  }

  /** `q` is farther than `size` from every trail point. */
  ghost predicate Far(q: Point, trail: seq<Point>, size: real) {
    forall t :: t in trail ==> !WithinRadius(q, t, size)
  }

  /** The inner loop of the filter: does some trail point lie within `size` of `q`? */
  function NearSomeTrailPoint(q: Point, trail: seq<Point>, size: real): (r: bool)
    ensures r <==> !Far(q, trail, size)
    decreases |trail|
  {
    if |trail| == 0 then false
    else if WithinRadius(q, trail[0], size) then true
    else
      assert forall t :: t in trail ==> t == trail[0] || t in trail[1..];
      NearSomeTrailPoint(q, trail[1..], size)
  }

  /** The `points.filter` of the erase functions: the points of `e` whose global position is far from the trail. */
  function KeepFar(e: Element, pts: seq<Point>, trail: seq<Point>, size: real): (r: seq<Point>)
    ensures IsSubsequence(r, pts)
    ensures forall q :: q in r <==> q in pts && Far(Global(e, q), trail, size)
    ensures forall q :: multiset(r)[q] == if Far(Global(e, q), trail, size) then multiset(pts)[q] else 0
    decreases |pts|
  {
    if |pts| == 0 then []
    else
      var rest := KeepFar(e, pts[1..], trail, size);
      assert pts == [pts[0]] + pts[1..];
      if NearSomeTrailPoint(Global(e, pts[0]), trail, size) then
        SubsequenceOfCons(rest, pts[0], pts[1..]);
        rest
      else
        SubsequenceKeepsHead(rest, pts[0], pts[1..]);
        [pts[0]] + rest
  }

  /**
   The shared body of eraseFromFreeDrawElement and eraseFromLinearElement:
   None for fewer than two points; otherwise a copy that is deleted when
   fewer than two points survive, and that carries the survivors otherwise.
   */
  function TrimElement(e: Element, trail: seq<Point>, size: real): (r: Option<Element>)
    ensures r.None? <==> |e.points| < 2
    ensures r.Some? ==> r.value.(points := e.points, isDeleted := e.isDeleted) == e
    ensures r.Some? ==>
              var survivors := KeepFar(e, e.points, trail, size);
              && (|survivors| < 2 ==> r.value.isDeleted && r.value.points == e.points)
              && (|survivors| >= 2 ==> r.value.isDeleted == e.isDeleted && r.value.points == survivors)
  {
    if |e.points| < 2 then None
    else
      var survivors := KeepFar(e, e.points, trail, size);
      if |survivors| < 2 then Some(e.(isDeleted := true))
      else Some(e.(points := survivors))
  }

  /** eraseFromFreeDrawElement. */
  function EraseFromFreeDrawElement(e: Element, trail: seq<Point>, size: real): (r: Option<Element>)
    requires e.kind == FreeDraw
    ensures r.None? <==> |e.points| < 2
    ensures r.Some? ==> r.value.id == e.id && r.value.kind == FreeDraw
  {
    TrimElement(e, trail, size)
  }

  /** eraseFromLinearElement. */
  function EraseFromLinearElement(e: Element, trail: seq<Point>, size: real): (r: Option<Element>)
    requires e.kind == Linear
    ensures r.None? <==> |e.points| < 2
    ensures r.Some? ==> r.value.id == e.id && r.value.kind == Linear
  {
    TrimElement(e, trail, size)
  }

  /** The element kinds the finalize step trims. */
  predicate Trimmable(e: Element) {
    e.kind == FreeDraw || e.kind == Linear
  }

  /** The erase function finalize dispatches to for a trimmable element. */
  function EraseByKind(e: Element, trail: seq<Point>, size: real): (r: Option<Element>)
    requires Trimmable(e)
    ensures r == TrimElement(e, trail, size)
  {
    if e.kind == FreeDraw then EraseFromFreeDrawElement(e, trail, size)
    else EraseFromLinearElement(e, trail, size)
  }

  /** The marked id names a live trimmable element of the scene that has at least two points. */
  predicate Selected(all: ElementsMap, marks: set<Id>, id: Id) {
    id in marks && id in all && !all[id].isDeleted && Trimmable(all[id]) && |all[id].points| >= 2
  }

  /**
   What finalize produces, as a map from id: one trimmed copy for every
   selected id, and nothing when the marks or the trail are empty.
   */
  function Finalized(app: App, s: Session): (r: map<Id, Element>)
    ensures s.elementsToErase == {} ==> r == map[]
    ensures s.trail.None? || s.trail.value == [] ==> r == map[]
    ensures s.trail.Some? && s.trail.value != [] ==>
              forall id :: id in r <==> Selected(ArrayToMap(app.elements), s.elementsToErase, id)
  {
    var all := ArrayToMap(app.elements);
    if s.elementsToErase == {} || s.trail.None? || s.trail.value == [] then map[]
    else
      map id | id in s.elementsToErase && Selected(all, s.elementsToErase, id)
        :: TrimElement(all[id], s.trail.value, PixelEraserSize(app.state)).value
  }

  /** The modified elements, keyed by id. */
  function ById(es: seq<Element>): (m: map<Id, Element>)
    requires UniqueIds(es)
    ensures forall e :: e in es ==> e.id in m && m[e.id] == e
    ensures forall id :: id in m ==> exists e :: e in es && e.id == id
  {
    map e | e in es :: e.id := e
  }

  lemma ByIdAppend(es: seq<Element>, x: Element)
    requires UniqueIds(es)
    requires forall e :: e in es ==> e.id != x.id
    ensures UniqueIds(es + [x])
    ensures ById(es + [x]) == ById(es)[x.id := x]
  {
    assert forall e :: e in es + [x] <==> e in es || e == x;
  }

  /**
   processElementsForPixelErasing: visit every marked id once, look it up in
   the whole scene (deleted elements included), skip missing and deleted
   elements and every kind other than freedraw and linear, and collect the
   erase results that are not null.
   */
  method ProcessElementsForPixelErasing(app: App, s: Session) returns (modified: seq<Element>)
    ensures UniqueIds(modified)
    ensures ById(modified) == Finalized(app, s)
  {
    modified := [];
    if s.elementsToErase == {} {
      return;
    }
    if s.trail.None? || s.trail.value == [] {
      return;
    }
    var trail := s.trail.value;
    var size := PixelEraserSize(app.state);
    var all := ArrayToMap(app.elements);
    ghost var target := Finalized(app, s);
    var remaining := s.elementsToErase;
    while remaining != {}
      invariant remaining <= s.elementsToErase
      invariant UniqueIds(modified)
      invariant forall e :: e in modified ==> e.id !in remaining
      invariant forall id :: id in ById(modified) <==> id in target && id !in remaining
      invariant forall id :: id in ById(modified) ==> ById(modified)[id] == target[id]
      decreases remaining
    {
      var id :| id in remaining;
      remaining := remaining - {id};
      if id in all && !all[id].isDeleted {
        var element := all[id];
        if Trimmable(element) {
          var result := EraseByKind(element, trail, size);
          if result.Some? {
            assert Selected(all, s.elementsToErase, id);
            ByIdAppend(modified, result.value);
            modified := modified + [result.value];
          } else {
            assert !Selected(all, s.elementsToErase, id);
          }
        } else {
          assert !Selected(all, s.elementsToErase, id);
        }
      } else {
        assert !Selected(all, s.elementsToErase, id);
      }
    }
  }
}
