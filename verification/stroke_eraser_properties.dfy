/**
 Properties of the stroke eraser session that relate several calls or need
 induction over the candidate loop: what a forward or restore update marks
 and unmarks, in terms of the uncached hit test; and concrete scenes that
 show the group-reversal and locked-element behaviour as written.
 */
module StrokeEraserProperties {
  import opened Base
  import opened Scene
  import opened StrokeEraser

  /** The forward loop, with coherent caches, keeps them coherent and marks every candidate the path hits. */
  lemma {:induction false} MarkPassMarksHits(o: Oracles, app: App, segs: seq<Segment>, emap: ElementsMap, cands: seq<Element>, m: Marks)
    requires |segs| > 0
    requires Coherent(o, m.caches, emap)
    requires MapsCandidates(emap, cands)
    ensures var r := MarkPass(o, app, segs, emap, cands, m);
            && Coherent(o, r.caches, emap)
            && (forall e :: e in cands && StrokeHit(o, app, segs, e, emap) ==> e.id in r.elements)
    decreases |cands|
  {
    if |cands| > 0 {
      var e := cands[0];
      var rest := cands[1..];
      var m1 := MarkVisit(o, app, segs, emap, e, m);
      FullStrokeEraserTestIsStrokeHit(o, app, segs, e, emap, m.caches);
      assert MapsCandidates(emap, rest);
      MarkPassMarksHits(o, app, segs, emap, rest, m1);
      var r := MarkPass(o, app, segs, emap, rest, m1);
      forall x | x in cands && StrokeHit(o, app, segs, x, emap)
        ensures x.id in r.elements
      {
        if x != e {
          assert x in rest;
        }
      }
    }
  }

  /**
   The forward loop, with coherent caches: every newly marked id is accounted
   for by a candidate the path hits, and every newly recorded group is the
   group key of such a candidate.
   */
  lemma {:induction false} MarkPassJustifiesMarks(o: Oracles, app: App, segs: seq<Segment>, emap: ElementsMap, cands: seq<Element>, m: Marks)
    requires |segs| > 0
    requires Coherent(o, m.caches, emap)
    requires MapsCandidates(emap, cands)
    ensures var r := MarkPass(o, app, segs, emap, cands, m);
            && (forall id :: id in r.elements && id !in m.elements ==>
                  exists e :: e in cands && StrokeHit(o, app, segs, e, emap) && Accounts(o, app, e, id, r.groups - m.groups))
            && (forall k :: k in r.groups && k !in m.groups ==>
                  exists e :: e in cands && StrokeHit(o, app, segs, e, emap) && k == e.ShallowestGroupId())
    decreases |cands|
  {
    if |cands| > 0 {
      var e := cands[0];
      var rest := cands[1..];
      var m1 := MarkVisit(o, app, segs, emap, e, m);
      FullStrokeEraserTestIsStrokeHit(o, app, segs, e, emap, m.caches);
      assert MapsCandidates(emap, rest);
      MarkPassJustifiesMarks(o, app, segs, emap, rest, m1);
      var r := MarkPass(o, app, segs, emap, rest, m1);
      forall id | id in r.elements && id !in m.elements
        ensures exists x :: x in cands && StrokeHit(o, app, segs, x, emap) && Accounts(o, app, x, id, r.groups - m.groups)
      {
        if id in m1.elements {
          AccountsWiden(o, app, e, id, m1.groups - m.groups, r.groups - m.groups);
          assert StrokeHit(o, app, segs, e, emap);
        } else {
          var x :| x in rest && StrokeHit(o, app, segs, x, emap) && Accounts(o, app, x, id, r.groups - m1.groups);
          AccountsWiden(o, app, x, id, r.groups - m1.groups, r.groups - m.groups);
          assert x in cands;
        }
      }
      forall k | k in r.groups && k !in m.groups
        ensures exists x :: x in cands && StrokeHit(o, app, segs, x, emap) && k == x.ShallowestGroupId()
      {
        if k in m1.groups {
          assert StrokeHit(o, app, segs, e, emap) && k == e.ShallowestGroupId();
        } else {
          var x :| x in rest && StrokeHit(o, app, segs, x, emap) && k == x.ShallowestGroupId();
          assert x in cands;
        }
      }
    }
  }

  /**
   The forward loop, with coherent caches: every candidate the path hits ends
   marked, every newly marked id and newly recorded group comes from a hit
   candidate, and the caches stay coherent.
   */
  lemma MarkPassSound(o: Oracles, app: App, segs: seq<Segment>, emap: ElementsMap, cands: seq<Element>, m: Marks)
    requires |segs| > 0
    requires Coherent(o, m.caches, emap)
    requires MapsCandidates(emap, cands)
    ensures var r := MarkPass(o, app, segs, emap, cands, m);
            && Coherent(o, r.caches, emap)
            && (forall e :: e in cands && StrokeHit(o, app, segs, e, emap) ==> e.id in r.elements)
            && (forall id :: id in r.elements && id !in m.elements ==>
                  exists e :: e in cands && StrokeHit(o, app, segs, e, emap) && Accounts(o, app, e, id, r.groups - m.groups))
            && (forall k :: k in r.groups && k !in m.groups ==>
                  exists e :: e in cands && StrokeHit(o, app, segs, e, emap) && k == e.ShallowestGroupId())
  {
    MarkPassMarksHits(o, app, segs, emap, cands, m);
    MarkPassJustifiesMarks(o, app, segs, emap, cands, m);
  }

  /** The restore loop keeps coherent caches coherent. */
  lemma {:induction false} RestorePassKeepsCachesCoherent(o: Oracles, app: App, segs: seq<Segment>, emap: ElementsMap, cands: seq<Element>, m: Marks)
    requires |segs| > 0
    requires Coherent(o, m.caches, emap)
    requires MapsCandidates(emap, cands)
    ensures Coherent(o, RestorePass(o, app, segs, emap, cands, m).caches, emap)
    decreases |cands|
  {
    if |cands| > 0 {
      FullStrokeEraserTestIsStrokeHit(o, app, segs, cands[0], emap, m.caches);
      assert MapsCandidates(emap, cands[1..]);
      RestorePassKeepsCachesCoherent(o, app, segs, emap, cands[1..], RestoreVisit(o, app, segs, emap, cands[0], m));
    }
  }

  /** The restore loop, with coherent caches, leaves every candidate the path hits unmarked. */
  lemma {:induction false} RestorePassUnmarksHits(o: Oracles, app: App, segs: seq<Segment>, emap: ElementsMap, cands: seq<Element>, m: Marks)
    requires |segs| > 0
    requires Coherent(o, m.caches, emap)
    requires MapsCandidates(emap, cands)
    ensures forall e :: e in cands && StrokeHit(o, app, segs, e, emap) ==> e.id !in RestorePass(o, app, segs, emap, cands, m).elements
    decreases |cands|
  {
    if |cands| > 0 {
      var e := cands[0];
      var rest := cands[1..];
      var m1 := RestoreVisit(o, app, segs, emap, e, m);
      FullStrokeEraserTestIsStrokeHit(o, app, segs, e, emap, m.caches);
      assert MapsCandidates(emap, rest);
      RestorePassUnmarksHits(o, app, segs, emap, rest, m1);
      var r := RestorePass(o, app, segs, emap, rest, m1);
      assert StrokeHit(o, app, segs, e, emap) ==> e.id !in m1.elements;
      forall x | x in cands && StrokeHit(o, app, segs, x, emap)
        ensures x.id !in r.elements
      {
        if x != e {
          assert x in rest;
        }
      }
    }
  }

  /**
   The restore loop, with coherent caches: every unmarked id is reached from
   a candidate the path hits and that was marked when the loop began.
   */
  lemma {:induction false} RestorePassJustifiesUnmarks(o: Oracles, app: App, segs: seq<Segment>, emap: ElementsMap, cands: seq<Element>, m: Marks)
    requires |segs| > 0
    requires Coherent(o, m.caches, emap)
    requires MapsCandidates(emap, cands)
    ensures forall id :: id in m.elements && id !in RestorePass(o, app, segs, emap, cands, m).elements ==>
              exists e :: e in cands && e.id in m.elements && StrokeHit(o, app, segs, e, emap)
                          && Accounts(o, app, e, id, m.groups - RestorePass(o, app, segs, emap, cands, m).groups)
    decreases |cands|
  {
    if |cands| > 0 {
      var e := cands[0];
      var rest := cands[1..];
      var m1 := RestoreVisit(o, app, segs, emap, e, m);
      FullStrokeEraserTestIsStrokeHit(o, app, segs, e, emap, m.caches);
      assert MapsCandidates(emap, rest);
      RestorePassJustifiesUnmarks(o, app, segs, emap, rest, m1);
      var r := RestorePass(o, app, segs, emap, rest, m1);
      forall id | id in m.elements && id !in r.elements
        ensures exists x :: x in cands && x.id in m.elements && StrokeHit(o, app, segs, x, emap) && Accounts(o, app, x, id, m.groups - r.groups)
      {
        if id !in m1.elements {
          AccountsWiden(o, app, e, id, m.groups - m1.groups, m.groups - r.groups);
          assert e.id in m.elements && StrokeHit(o, app, segs, e, emap);
        } else {
          var x :| x in rest && x.id in m1.elements && StrokeHit(o, app, segs, x, emap) && Accounts(o, app, x, id, m1.groups - r.groups);
          AccountsWiden(o, app, x, id, m1.groups - r.groups, m.groups - r.groups);
          assert x in cands;
        }
      }
    }
  }

  /**
   A forward update: every visible unlocked element the newest path segment
   hits is marked; every newly marked id is the id, bound text, container or
   last-group member of such an element; every newly recorded group key is
   the last group id (possibly None) of such an element; recorded groups stay
   fully marked; and the caches stay current.
   */
  lemma ForwardUpdateSound(o: Oracles, app: App, s: Session)
    requires UniqueIds(app.visible)
    requires CachesCurrent(o, app, s.caches)
    requires |PathSegments(CurrentPath(s))| > 0
    ensures var segs := PathSegments(CurrentPath(s));
            var emap := ArrayToMap(Candidates(app));
            var r := UpdateElementsToBeErased(o, app, s, false).session;
            && CachesCurrent(o, app, r.caches)
            && (forall e :: e in app.visible && !e.locked && StrokeHit(o, app, segs, e, emap) ==> e.id in r.elementsToErase)
            && (forall id :: id in r.elementsToErase && id !in s.elementsToErase ==>
                  exists e :: e in app.visible && !e.locked && StrokeHit(o, app, segs, e, emap)
                              && Accounts(o, app, e, id, r.groupsToErase - s.groupsToErase))
            && (forall k :: k in r.groupsToErase && k !in s.groupsToErase ==>
                  exists e :: e in app.visible && !e.locked && StrokeHit(o, app, segs, e, emap) && k == e.ShallowestGroupId())
            && (GroupsClosed(o, app, Marks(s.elementsToErase, s.groupsToErase, s.caches)) ==>
                  GroupsClosed(o, app, Marks(r.elementsToErase, r.groupsToErase, r.caches)))
  {
    CandidatesAreMapped(app);
    MarkPassSound(o, app, PathSegments(CurrentPath(s)), ArrayToMap(Candidates(app)), Candidates(app),
                  Marks(s.elementsToErase, s.groupsToErase, s.caches));
  }

  /**
   A restore update: every visible unlocked element the newest path segment
   hits ends unmarked, every unmarked id is the id, bound text, container or
   last-group member of such an element that was marked, and a dropped group
   has none of its members left marked.
   */
  lemma RestoreUpdateSound(o: Oracles, app: App, s: Session)
    requires UniqueIds(app.visible)
    requires CachesCurrent(o, app, s.caches)
    requires |PathSegments(CurrentPath(s))| > 0
    ensures var segs := PathSegments(CurrentPath(s));
            var emap := ArrayToMap(Candidates(app));
            var r := UpdateElementsToBeErased(o, app, s, true).session;
            && CachesCurrent(o, app, r.caches)
            && (forall e :: e in app.visible && !e.locked && StrokeHit(o, app, segs, e, emap) ==> e.id !in r.elementsToErase)
            && (forall id :: id in s.elementsToErase && id !in r.elementsToErase ==>
                  exists e :: e in app.visible && !e.locked && e.id in s.elementsToErase
                              && StrokeHit(o, app, segs, e, emap) && Accounts(o, app, e, id, s.groupsToErase - r.groupsToErase))
            && (forall k :: k in s.groupsToErase && k !in r.groupsToErase ==> GroupMemberIds(o, app, k) !! r.elementsToErase)
  {
    CandidatesAreMapped(app);
    RestorePassKeepsCachesCoherent(o, app, PathSegments(CurrentPath(s)), ArrayToMap(Candidates(app)), Candidates(app),
                                   Marks(s.elementsToErase, s.groupsToErase, s.caches));
    RestorePassUnmarksHits(o, app, PathSegments(CurrentPath(s)), ArrayToMap(Candidates(app)), Candidates(app),
                           Marks(s.elementsToErase, s.groupsToErase, s.caches));
    RestorePassJustifiesUnmarks(o, app, PathSegments(CurrentPath(s)), ArrayToMap(Candidates(app)), Candidates(app),
                                Marks(s.elementsToErase, s.groupsToErase, s.caches));
  }

  /** With fewer than two trail points an update tests nothing, reports nothing and changes nothing. */
  lemma FewerThanTwoPointsChangeNothing(o: Oracles, app: App, s: Session, restore: bool)
    requires s.trail.None? || |s.trail.value| < 2
    ensures UpdateElementsToBeErased(o, app, s, restore) == Update(s, {})
  {
    AtMostOneSegment(s);
  }

  /** Only the two newest trail points matter: trails that agree on them give the same update. */
  lemma OnlyNewestTwoPointsMatter(o: Oracles, app: App, s: Session, older: seq<Point>, restore: bool)
    requires s.trail.Some? && |s.trail.value| >= 2
    ensures var t := s.trail.value;
            var s' := s.(trail := Some(older + t[|t| - 2..]));
            UpdateElementsToBeErased(o, app, s', restore).session.(trail := s.trail)
              == UpdateElementsToBeErased(o, app, s, restore).session
  {
    var t := s.trail.value;
    var s' := s.(trail := Some(older + t[|t| - 2..]));
    AtMostOneSegment(s);
    AtMostOneSegment(s');
    assert (older + t[|t| - 2..])[|older + t[|t| - 2..]| - 2..] == t[|t| - 2..];
  }

  /** A new gesture keeps nothing of the previous one but the shape cache. */
  lemma StartPathForgetsPreviousGesture(s1: Session, s2: Session, p: Point)
    requires s1.caches.shapes == s2.caches.shapes
    ensures StartPath(s1, p) == StartPath(s2, p)
  {
  }

  // ---------------------------------------------------------------------
  // Concrete scenes. Every element segment meets every path segment, and
  // `membersOf` answers the group "g1" with the two given elements.

  function Rect(id: Id, groups: seq<GroupId>, boundText: Option<Id>, locked: bool): Element {
    Element(id, Generic, 0.0, 0.0, [], groups, None, boundText, locked, false)
  }

  function DemoOracles(crossed: set<Id>, g1: seq<Element>): Oracles {
    Oracles(
      (e: Element, m: ElementsMap) => Shape(0),
      (e: Element, m: ElementsMap) => if e.id in crossed then [Segment(Point(0.0, 0.0), Point(1.0, 1.0))] else [],
      (e: Element) => false,
      (p: Point, sh: Shape) => false,
      (a: Segment, b: Segment, t: real) => true,
      (m: ElementsMap, k: Option<GroupId>) => if k == Some("g1") then g1 else [])
  }

  function DemoApp(visible: seq<Element>): App {
    App(visible, visible, 1.0, AppState(Eraser, Light, 5.0, false, map[]))
  }

  const DemoTrail := Some([Point(0.0, 0.0), Point(1.0, 1.0)])

  const DemoSegment := Segment(Point(0.0, 0.0), Point(1.0, 1.0))

  lemma DemoTrailHasOneSegment()
    ensures PathSegments(CurrentPath(Initial.(trail := DemoTrail))) == [DemoSegment]
  {
    AtMostOneSegment(Initial.(trail := DemoTrail));
  }

  lemma TwoUnlockedCandidates(a: Element, b: Element)
    requires !a.locked && !b.locked
    ensures Candidates(DemoApp([a, b])) == [a, b]
  {
    assert [a, b][1..] == [b] && [b][1..] == [];
    assert Unlocked([b]) == [b];
  }

  lemma OneUnlockedCandidate(a: Element, b: Element)
    requires !a.locked && b.locked
    ensures Candidates(DemoApp([a, b])) == [a]
  {
    assert [a, b][1..] == [b] && [b][1..] == [];
    assert Unlocked([b]) == [];
  }

  lemma DemoGroupMembers(crossed: set<Id>, a: Element, b: Element, app: App)
    ensures GroupMemberIds(DemoOracles(crossed, [a, b]), app, Some("g1")) == {a.id, b.id}
  {
    var o := DemoOracles(crossed, [a, b]);
    assert o.membersOf(NonDeletedMap(app), Some("g1")) == [a, b];
  }

  /** A path segment meeting a cached boundary segment makes the stroke test report a hit. */
  lemma SegmentPairWitnessesHit(o: Oracles, app: App, segs: seq<Segment>, e: Element, emap: ElementsMap, caches: Caches, ps: Segment, es: Segment)
    requires ps in segs
    requires es in CachedSegments(o, CachedShape(o, caches, e, emap).1, e, emap).0
    requires o.segmentsMeet(ps, es, app.hitThreshold)
    ensures EraserTest(o, app, segs, e, emap, caches).0
  {
  }

  /** Without inside testing and without boundary segments the stroke test reports no hit. */
  lemma NoSegmentsNoStrokeHit(o: Oracles, app: App, segs: seq<Segment>, e: Element, emap: ElementsMap, caches: Caches)
    requires |segs| > 0
    requires !o.testsInside(e)
    requires CachedSegments(o, CachedShape(o, caches, e, emap).1, e, emap).0 == []
    ensures !EraserTest(o, app, segs, e, emap, caches).0
  {
  }

  /** A crossed element of a demo scene, tested with empty caches, is hit. */
  lemma DemoCrossedIsHit(crossed: set<Id>, g1: seq<Element>, app: App, e: Element, emap: ElementsMap)
    requires e.id in crossed
    ensures EraserTest(DemoOracles(crossed, g1), app, [DemoSegment], e, emap, NoCaches).0
  {
    var o := DemoOracles(crossed, g1);
    assert CachedSegments(o, CachedShape(o, NoCaches, e, emap).1, e, emap).0 == [DemoSegment];
    SegmentPairWitnessesHit(o, app, [DemoSegment], e, emap, NoCaches, DemoSegment, DemoSegment);
  }

  lemma MarkPassOfTwo(o: Oracles, app: App, segs: seq<Segment>, emap: ElementsMap, a: Element, b: Element, m: Marks)
    requires |segs| > 0
    ensures MarkPass(o, app, segs, emap, [a, b], m) == MarkVisit(o, app, segs, emap, b, MarkVisit(o, app, segs, emap, a, m))
  {
    var m1 := MarkVisit(o, app, segs, emap, a, m);
    assert [a, b][1..] == [b];
    assert MarkPass(o, app, segs, emap, [a, b], m) == MarkPass(o, app, segs, emap, [b], m1);
    assert [b][1..] == [];
    assert MarkPass(o, app, segs, emap, [b], m1) == MarkPass(o, app, segs, emap, [], MarkVisit(o, app, segs, emap, b, m1));
  }

  lemma MarkPassOfOne(o: Oracles, app: App, segs: seq<Segment>, emap: ElementsMap, a: Element, m: Marks)
    requires |segs| > 0
    ensures MarkPass(o, app, segs, emap, [a], m) == MarkVisit(o, app, segs, emap, a, m)
  {
    assert [a][1..] == [];
    assert MarkPass(o, app, segs, emap, [a], m) == MarkPass(o, app, segs, emap, [], MarkVisit(o, app, segs, emap, a, m));
  }

  lemma RestorePassOfTwo(o: Oracles, app: App, segs: seq<Segment>, emap: ElementsMap, a: Element, b: Element, m: Marks)
    requires |segs| > 0
    ensures RestorePass(o, app, segs, emap, [a, b], m) == RestoreVisit(o, app, segs, emap, b, RestoreVisit(o, app, segs, emap, a, m))
  {
    var m1 := RestoreVisit(o, app, segs, emap, a, m);
    assert [a, b][1..] == [b];
    assert RestorePass(o, app, segs, emap, [a, b], m) == RestorePass(o, app, segs, emap, [b], m1);
    assert [b][1..] == [];
    assert RestorePass(o, app, segs, emap, [b], m1) == RestorePass(o, app, segs, emap, [], RestoreVisit(o, app, segs, emap, b, m1));
  }

  /** With the demo trail, an update is one pass over the candidates from the session's marks. */
  lemma DemoUpdateIsOnePass(o: Oracles, app: App, s: Session, restore: bool)
    requires s.trail == DemoTrail
    ensures var cands := Candidates(app);
            var m := Marks(s.elementsToErase, s.groupsToErase, s.caches);
            var p := if restore then RestorePass(o, app, [DemoSegment], ArrayToMap(cands), cands, m)
                     else MarkPass(o, app, [DemoSegment], ArrayToMap(cands), cands, m);
            var r := UpdateElementsToBeErased(o, app, s, restore);
            r.erased == p.elements && r.session.groupsToErase == p.groups
  {
    assert CurrentPath(s) == CurrentPath(Initial.(trail := DemoTrail));
    DemoTrailHasOneSegment();
  }

  /**
   The witness of `CrossingOneGroupMemberMarksTheGroup`, with the scene's
   values passed in as parameters so that the proof steps through named
   values rather than literals.
   */
  lemma CrossingWitness(a: Element, b: Element, o: Oracles, app: App, s: Session)
    requires a == Rect("a", ["g1"], None, false)
    requires b == Rect("b", ["g1"], None, false)
    requires o == DemoOracles({"a"}, [a, b])
    requires app == DemoApp([a, b])
    requires s == Initial.(trail := DemoTrail)
    ensures var r := UpdateElementsToBeErased(o, app, s, false);
            r.erased == {"a", "b"} && r.session.groupsToErase == {Some("g1")}
  {
    DemoUpdateIsOnePass(o, app, s, false);
    TwoUnlockedCandidates(a, b);
    var emap := ArrayToMap([a, b]);
    var m0 := Marks({}, {}, NoCaches);
    MarkPassOfTwo(o, app, [DemoSegment], emap, a, b, m0);
    CrossingVisitsA(a, b, o, app, emap);
  }

  /** A step of `CrossingWitness`: visiting "a" marks both rectangles and records g1. */
  lemma CrossingVisitsA(a: Element, b: Element, o: Oracles, app: App, emap: ElementsMap)
    requires a == Rect("a", ["g1"], None, false)
    requires b == Rect("b", ["g1"], None, false)
    requires o == DemoOracles({"a"}, [a, b])
    requires app == DemoApp([a, b])
    ensures var m1 := MarkVisit(o, app, [DemoSegment], emap, a, Marks({}, {}, NoCaches));
            m1.elements == {"a", "b"} && m1.groups == {Some("g1")}
  {
    DemoGroupMembers({"a"}, a, b, app);
    DemoCrossedIsHit({"a"}, [a, b], app, a, emap);
  }

  /**
   Crossing one rectangle of group g1 marks its sibling too and records g1,
   even though the path never touches the sibling.
   */
  lemma CrossingOneGroupMemberMarksTheGroup()
    ensures var a := Rect("a", ["g1"], None, false);
            var b := Rect("b", ["g1"], None, false);
            var r := UpdateElementsToBeErased(DemoOracles({"a"}, [a, b]), DemoApp([a, b]), Initial.(trail := DemoTrail), false);
            r.erased == {"a", "b"} && r.session.groupsToErase == {Some("g1")}
  {
    var a := Rect("a", ["g1"], None, false);
    var b := Rect("b", ["g1"], None, false);
    CrossingWitness(a, b, DemoOracles({"a"}, [a, b]), DemoApp([a, b]), Initial.(trail := DemoTrail));
  }

  /** The witness of `LockedGroupMemberIsMarked`, with the scene's values passed in as parameters. */
  lemma LockedWitness(a: Element, b: Element, o: Oracles, app: App, s: Session)
    requires a == Rect("a", ["g1"], None, false)
    requires b == Rect("b", ["g1"], None, true)
    requires o == DemoOracles({"a", "b"}, [a, b])
    requires app == DemoApp([a, b])
    requires s == Initial.(trail := DemoTrail)
    ensures "b" in UpdateElementsToBeErased(o, app, s, false).erased
  {
    DemoTrailHasOneSegment();
    OneUnlockedCandidate(a, b);
    DemoGroupMembers({"a", "b"}, a, b, app);
    var emap := ArrayToMap([a]);
    var m0 := Marks({}, {}, NoCaches);
    DemoCrossedIsHit({"a", "b"}, [a, b], app, a, emap);
    MarkPassOfOne(o, app, [DemoSegment], emap, a, m0);
  }

  /**
   A locked element is never tested, yet group expansion marks it: here the
   unlocked "a" is crossed and its locked sibling "b" is marked with it.
   */
  lemma LockedGroupMemberIsMarked()
    ensures var a := Rect("a", ["g1"], None, false);
            var b := Rect("b", ["g1"], None, true);
            var r := UpdateElementsToBeErased(DemoOracles({"a", "b"}, [a, b]), DemoApp([a, b]), Initial.(trail := DemoTrail), false);
            b.locked && "b" in r.erased
  {
    var a := Rect("a", ["g1"], None, false);
    var b := Rect("b", ["g1"], None, true);
    LockedWitness(a, b, DemoOracles({"a", "b"}, [a, b]), DemoApp([a, b]), Initial.(trail := DemoTrail));
  }

  lemma ThreeUnlockedCandidates(a: Element, b: Element, c: Element)
    requires !a.locked && !b.locked && !c.locked
    ensures Candidates(DemoApp([a, b, c])) == [a, b, c]
  {
    assert [a, b, c][1..] == [b, c];
    TwoUnlockedCandidates(b, c);
    assert Unlocked([b, c]) == [b, c];
  }

  lemma RestorePassOfThree(o: Oracles, app: App, segs: seq<Segment>, emap: ElementsMap, a: Element, b: Element, c: Element, m: Marks)
    requires |segs| > 0
    ensures RestorePass(o, app, segs, emap, [a, b, c], m)
              == RestoreVisit(o, app, segs, emap, c, RestoreVisit(o, app, segs, emap, b, RestoreVisit(o, app, segs, emap, a, m)))
  {
    var m1 := RestoreVisit(o, app, segs, emap, a, m);
    assert [a, b, c][1..] == [b, c];
    assert RestorePass(o, app, segs, emap, [a, b, c], m) == RestorePass(o, app, segs, emap, [b, c], m1);
    RestorePassOfTwo(o, app, segs, emap, b, c, m1);
  }

  /** A step of `ReversalWitness`: restoring over "a" unmarks all of the recorded group g1 and leaves "c", whose segments are not yet cached. */
  lemma ReversalVisitsA(a: Element, t: Element, app: App, emap: ElementsMap)
    requires a == Rect("a", ["g1"], None, false)
    requires t == Rect("t", ["g1"], None, false)
    ensures var r := RestoreVisit(DemoOracles({"a"}, [a, t]), app, [DemoSegment], emap, a,
                                  Marks({"a", "t", "c"}, {Some("g1"), None}, NoCaches));
            r.elements == {"c"} && "c" !in r.caches.segments
  {
    ReversalUnmarksGroup(a, t, app, emap);
    ReversalCachesOnlyA(a, t, app, emap);
  }

  /** A step of `ReversalVisitsA`: the marks left are those of "c". */
  lemma ReversalUnmarksGroup(a: Element, t: Element, app: App, emap: ElementsMap)
    requires a == Rect("a", ["g1"], None, false)
    requires t == Rect("t", ["g1"], None, false)
    ensures RestoreVisit(DemoOracles({"a"}, [a, t]), app, [DemoSegment], emap, a,
                         Marks({"a", "t", "c"}, {Some("g1"), None}, NoCaches)).elements == {"c"}
  {
    var o := DemoOracles({"a"}, [a, t]);
    var m := Marks({"a", "t", "c"}, {Some("g1"), None}, NoCaches);
    DemoGroupMembers({"a"}, a, t, app);
    DemoCrossedIsHit({"a"}, [a, t], app, a, emap);
    assert a.ShallowestGroupId() == Some("g1") && a.Dependents() == {"a"};
    assert {"a", "t", "c"} - {"a", "t"} - {"a"} == {"c"};
  }

  /** A step of `ReversalVisitsA`: testing "a" caches segments for "a" alone. */
  lemma ReversalCachesOnlyA(a: Element, t: Element, app: App, emap: ElementsMap)
    requires a == Rect("a", ["g1"], None, false)
    ensures "c" !in RestoreVisit(DemoOracles({"a"}, [a, t]), app, [DemoSegment], emap, a,
                                 Marks({"a", "t", "c"}, {Some("g1"), None}, NoCaches)).caches.segments
  {
    var o := DemoOracles({"a"}, [a, t]);
    assert EraserTest(o, app, [DemoSegment], a, emap, NoCaches).1.segments.Keys <= {"a"};
  }

  /** A step of `ReversalWitness`: the path misses "c", which has no boundary segments. */
  lemma ReversalVisitsC(a: Element, t: Element, c: Element, app: App, emap: ElementsMap, m: Marks)
    requires c == Rect("c", [], Some("t"), false)
    requires "c" !in m.caches.segments
    ensures RestoreVisit(DemoOracles({"a"}, [a, t]), app, [DemoSegment], emap, c, m).elements == m.elements
  {
    var o := DemoOracles({"a"}, [a, t]);
    assert CachedSegments(o, CachedShape(o, m.caches, c, emap).1, c, emap).0 == [];
    NoSegmentsNoStrokeHit(o, app, [DemoSegment], c, emap, m.caches);
  }

  /**
   The witness of `GroupReversalIgnoresOtherJustifications`, with the scene's
   values passed in as parameters so that the proof steps through named
   values rather than literals.
   */
  lemma ReversalWitness(a: Element, t: Element, c: Element, o: Oracles, app: App, s: Session)
    requires a == Rect("a", ["g1"], None, false)
    requires t == Rect("t", ["g1"], None, false)
    requires c == Rect("c", [], Some("t"), false)
    requires o == DemoOracles({"a"}, [a, t])
    requires app == DemoApp([a, t, c])
    requires s == Initial.(trail := DemoTrail, elementsToErase := {"a", "t", "c"}, groupsToErase := {Some("g1"), None})
    ensures UpdateElementsToBeErased(o, app, s, true).erased == {"c"}
  {
    DemoUpdateIsOnePass(o, app, s, true);
    ThreeUnlockedCandidates(a, t, c);
    var emap := ArrayToMap([a, t, c]);
    var m0 := Marks({"a", "t", "c"}, {Some("g1"), None}, NoCaches);
    RestorePassOfThree(o, app, [DemoSegment], emap, a, t, c, m0);
    ReversalVisitsA(a, t, app, emap);
    var m1 := RestoreVisit(o, app, [DemoSegment], emap, a, m0);
    assert "t" !in m1.elements;
    var m2 := RestoreVisit(o, app, [DemoSegment], emap, t, m1);
    assert m2 == m1;
    ReversalVisitsC(a, t, c, app, emap, m2);
  }

  /**
   Group reversal removes every member without re-checking other reasons:
   "t" is the bound text of the still-marked, ungrouped "c", but because "t"
   also belongs to g1, restoring over g1's member "a" unmarks it.
   */
  lemma GroupReversalIgnoresOtherJustifications()
    ensures var a := Rect("a", ["g1"], None, false);
            var t := Rect("t", ["g1"], None, false);
            var c := Rect("c", [], Some("t"), false);
            var s := Initial.(trail := DemoTrail, elementsToErase := {"a", "t", "c"}, groupsToErase := {Some("g1"), None});
            var r := UpdateElementsToBeErased(DemoOracles({"a"}, [a, t]), DemoApp([a, t, c]), s, true);
            && "c" in r.erased && c.boundTextId == Some("t")
            && "t" !in r.erased
  {
    var a := Rect("a", ["g1"], None, false);
    var t := Rect("t", ["g1"], None, false);
    var c := Rect("c", [], Some("t"), false);
    ReversalWitness(a, t, c, DemoOracles({"a"}, [a, t]), DemoApp([a, t, c]),
                    Initial.(trail := DemoTrail, elementsToErase := {"a", "t", "c"}, groupsToErase := {Some("g1"), None}));
  }

  /**
   The shape cache outlives endPath: a shape cached for "a" before it moved
   is still used by the next gesture, so the cached test answers differently
   from the oracles on the moved element.
   */
  lemma StaleShapeOutlivesEndPath()
    ensures var moved := Element("a", Generic, 50.0, 0.0, [], [], None, None, false, false);
            var o := Oracles(
              (e: Element, m: ElementsMap) => Shape(if e.x == 0.0 then 0 else 1),
              (e: Element, m: ElementsMap) => [],
              (e: Element) => true,
              (p: Point, sh: Shape) => sh.handle == 0,
              (a: Segment, b: Segment, t: real) => false,
              (m: ElementsMap, k: Option<GroupId>) => []);
            var before := Initial.(caches := Caches(map["a" := Shape(0)], map[]));
            var s := StartPath(before, Point(0.0, 0.0));
            var segs := [Segment(Point(0.0, 0.0), Point(1.0, 1.0))];
            var emap := map["a" := moved];
            && !Coherent(o, s.caches, emap)
            && FullStrokeEraserTest(o, DemoApp([moved]), segs, moved, emap, s.caches).0
            && !StrokeHit(o, DemoApp([moved]), segs, moved, emap)
  {
    var moved := Element("a", Generic, 50.0, 0.0, [], [], None, None, false, false);
    var o := Oracles(
      (e: Element, m: ElementsMap) => Shape(if e.x == 0.0 then 0 else 1),
      (e: Element, m: ElementsMap) => [],
      (e: Element) => true,
      (p: Point, sh: Shape) => sh.handle == 0,
      (a: Segment, b: Segment, t: real) => false,
      (m: ElementsMap, k: Option<GroupId>) => []);
    var s := StartPath(Initial.(caches := Caches(map["a" := Shape(0)], map[])), Point(0.0, 0.0));
    var segs := [Segment(Point(0.0, 0.0), Point(1.0, 1.0))];
    var emap := map["a" := moved];
    assert s.caches.shapes["a"] == Shape(0) && o.shapeOf(emap["a"], emap) == Shape(1);
    assert CachedShape(o, s.caches, moved, emap).0 == Shape(0);
    assert o.segmentsOf(moved, emap) == [];
  }
}
