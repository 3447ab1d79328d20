# Erasure engine of the canvas eraser, in Dafny

This project models the erasure engine of the drawing canvas's eraser tool.
It has two per-gesture sessions. Each turns a sampled pointer trail into a set
of element ids to erase. The project also models the eraser-settings reducers
and the eraser cursor.

- **Stroke eraser session** (`EraserTrail`, modules `StrokeEraser` and
  `StrokeEraserProperties`). Each sample forms at most one path segment, from
  the two newest trail points. In forward mode every visible unlocked element
  that the segment hits is marked. So are its bound text, its container and,
  the first time its last group id is seen, every non-deleted member of that
  group. Restore mode reverses those marks for already-marked elements.
- **Pixel eraser session** (`PixelEraserTrail`, modules `PixelEraser` and
  `PixelEraserProperties`). Each sample tests a circle around the sample
  against every visible unlocked element. It marks each element it touches,
  plus that element's bound text and container. Within a gesture the marks
  only grow.
- **Pixel finalize** (modules `PixelTrim` and `PixelTrimProperties`). Each
  marked freedraw or linear element loses the points that lie within the eraser
  radius of some trail point. It is deleted when fewer than two points survive.
- **Settings reducers** (`EraserActions`): the `perform` functions of the
  change-size, toggle-pixel-eraser and eraser-settings actions.
- **Cursor** (`Cursor`): the eraser cursor's size, image size and hotspot
  arithmetic, the redraw-when-stale cache, and the dispatch from the active
  tool to a cursor.
- `EraserSize` ties the stored size to its readers.
- `Geometry` holds the circle-versus-segment test. `Scene` holds the oracles,
  the candidate filter and the caches. `Base` holds the data model.

Geometry and group queries whose code is not part of this model are fields of
an `Oracles` record of total functions:

- `getElementShape`
- `getElementLineSegments`
- `shouldTestInside`
- `isPointInShape`
- `lineSegmentIntersectionPoints(...) !== null`
- `getElementsInGroup`

`hasBoundTextElement` with `getBoundTextElementId`, and `isBoundToContainer`
with `containerId`, become the optional fields `boundTextId` and `containerId`
of an element.

The trail recorder inherited from `AnimatedTrail` (not part of this model) is
modelled as the original points of the active trail, or None when no gesture
is active. The per-session shape and segment caches are modelled explicitly.
Lemmas show that coherent caches answer what the oracles answer.
Coordinates are `real`. `Math.hypot(d) <= r` is modelled as `r >= 0 && d*d <= r*r`.
The JavaScript `n || fallback` on a number is modelled as "0 falls back".

Three behaviours of the code are stated as lemmas, because they are easy to
overlook:

- **Locked group members.** Locked elements are never candidates. Still, the
  stroke eraser's group expansion takes every non-deleted member of the group,
  locked or not (index.ts:200-209). So it marks locked elements
  (`StrokeEraserProperties.LockedGroupMemberIsMarked`).
- **Group reversal.** Reversing a group removes every member from the marks
  (index.ts:162-171). That includes a member that another marked element still
  accounts for, for example as its bound text
  (`StrokeEraserProperties.GroupReversalIgnoresOtherJustifications`).
- **Shape cache.** The stroke eraser's `endPath` clears the segment cache only
  (index.ts:232-238). Its shape cache therefore survives into the next gesture,
  even after an element moved (`StrokeEraserProperties.StaleShapeOutlivesEndPath`).
  The pixel eraser clears both caches.

The soundness lemmas of both sessions relate the cached tests to the oracles.
They assume caches that are current: every cached entry for a candidate is what
the oracle computes for it now (`Scene.CachesCurrent`). A stroke gesture that
starts with a stale shape cache is outside them.

## Model

| member | source | states |
|---|---|---|
| `Geometry.Clamp01` | packages/excalidraw/eraser/pixelEraser.ts:212-215 | the projection parameter lies in [0, 1]; it is unchanged when already there, and a value below 0 or above 1 becomes 0 or 1 |
| `Geometry.CircleMeetsSegment` | packages/excalidraw/eraser/pixelEraser.ts:194-223 | an endpoint within the radius is a hit; a hit needs a non-negative radius; a zero-length segment is hit exactly when its point is within the radius |
| `Geometry.ProjectionIsClosest` | packages/excalidraw/eraser/pixelEraser.ts:211-220 | the clamped projection is the point of the segment closest to the centre |
| `Geometry.CircleMeetsSegmentExact` | packages/excalidraw/eraser/pixelEraser.ts:194-223 | the endpoint / zero-length / projection test reports a hit exactly when some point of the closed segment lies within the radius |
| `Scene.Unlocked` | packages/excalidraw/eraser/index.ts:129-131 | the candidates are exactly the unlocked elements, in their original order |
| `Scene.UnlockedCounts` | packages/excalidraw/eraser/index.ts:129-131 | the filter keeps each unlocked element as many times as it occurs and drops every locked one |
| `Scene.ArrayToMap` | packages/excalidraw/eraser/index.ts:133 | every element's id is a key; each key maps to an element of the list with that id; an element that no later element shares an id with is the one stored, so the last element with an id wins |
| `Scene.NonDeletedMap` | packages/excalidraw/eraser/index.ts:164 | the scene map holds only non-deleted scene elements, each under its own id; every non-deleted element that is the last with its id is in it, so in a scene with unique ids every non-deleted element is |
| `Base.Element.ShallowestGroupId` | packages/excalidraw/eraser/index.ts:160 | the group key is absent exactly for an ungrouped element; otherwise it is the last group id |
| `Scene.CachedLookupIsTransparent` | packages/excalidraw/eraser/index.ts:361-378 | a cache lookup in coherent caches returns what the geometry oracle computes, and the caches stay coherent |
| `Scene.CandidatesAreMapped` | packages/excalidraw/eraser/index.ts:129-133 | in a scene with unique ids, the candidate map holds each candidate under its id |
| `StrokeEraser.SliceFrom` | packages/excalidraw/eraser/index.ts:127 | the slice is a suffix; a start in range drops that many items, a negative start keeps that many from the end, a start before the beginning keeps everything and one past the end keeps nothing |
| `StrokeEraser.TrailWindowIsNewestPoints` | packages/excalidraw/eraser/index.ts:120-127 | the slice keeps the newest two trail points, or the whole trail when it is shorter |
| `StrokeEraser.PathSegments` | packages/excalidraw/eraser/index.ts:135-141 | the reduce yields one segment per consecutive pair of path points, in order |
| `StrokeEraser.AtMostOneSegment` | packages/excalidraw/eraser/index.ts:120-141 | at most one segment is tested; it exists exactly when the trail has two points, and it joins the two newest |
| `StrokeEraser.FullStrokeEraserTest` | packages/excalidraw/eraser/index.ts:353-390 | the test records the element's shape and at most its segments; it reuses and keeps every cached entry; with a cached shape, an inside-testable element whose shape holds the newest point is a hit |
| `StrokeEraser.FullStrokeEraserTestIsStrokeHit` | packages/excalidraw/eraser/index.ts:361-389 | with coherent caches, a hit is exactly: inside-testable and the newest point is in the shape, or some path segment meets some element segment within the hit threshold |
| `StrokeEraser.EraserTest` | packages/excalidraw/eraser/index.ts:245-271 | the answer is the one the stroke test gives with pixel erasing switched off, whatever the switch says |
| `StrokeEraser.MarkVisit` | packages/excalidraw/eraser/index.ts:187-225 | a marked element is skipped; a hit adds the element, its bound text and its container; if the last group id is not recorded yet, it also adds every group member and records the group, otherwise it adds no member; a miss changes nothing; every new id is accounted for by the element or by the group this visit recorded |
| `StrokeEraser.MarkPass` | packages/excalidraw/eraser/index.ts:147-227 | the forward loop only adds ids and groups; each new id is accounted for by some candidate's own ids or by a group the loop recorded; each new group is some candidate's key; recorded groups stay fully marked |
| `StrokeEraser.RestoreVisit` | packages/excalidraw/eraser/index.ts:148-186 | an unmarked element is skipped; a hit removes the element, its bound text and its container; if the last group id is recorded, it also removes every group member and drops the group; a miss changes nothing; every removed id is accounted for by the element or by the group this visit dropped |
| `StrokeEraser.RestorePass` | packages/excalidraw/eraser/index.ts:147-186 | the restore loop only removes ids and groups; each removed id is accounted for by a marked candidate's own ids or by a group the loop dropped; a dropped group keeps no marked member |
| `StrokeEraser.UpdateElementsToBeErased` | packages/excalidraw/eraser/index.ts:104-230 | with no segment, nothing changes and nothing is reported; otherwise the report is the whole mark set; forward mode only grows the marks and restore mode only shrinks them |
| `StrokeEraser.AddPointToPath` | packages/excalidraw/eraser/index.ts:96-102 | the sample extends the active trail; with no active trail nothing changes; otherwise the report is the mark set |
| `StrokeEraser.EndPath` | packages/excalidraw/eraser/index.ts:232-238 | the trail, both mark sets and the segment cache are cleared; the shape cache is kept |
| `StrokeEraser.StartPath` | packages/excalidraw/eraser/index.ts:90-94 | a new trail at the sample with no marks, no segment cache and the old shape cache |
| `StrokeEraserProperties.MarkPassMarksHits` | packages/excalidraw/eraser/index.ts:187-196 | with current caches, every candidate the path hits ends marked and the caches stay current |
| `StrokeEraserProperties.MarkPassJustifiesMarks` | packages/excalidraw/eraser/index.ts:197-225 | with current caches, every new id is accounted for by a hit candidate's own ids or by a group the loop recorded from a hit candidate, and every new group is a hit candidate's key |
| `StrokeEraserProperties.MarkPassSound` | packages/excalidraw/eraser/index.ts:187-225 | with current caches, every candidate the path hits ends marked; every new id and group is accounted for by a hit candidate; the caches stay current |
| `StrokeEraserProperties.RestorePassKeepsCachesCoherent` | packages/excalidraw/eraser/index.ts:148-158 | the restore loop keeps coherent caches coherent |
| `StrokeEraserProperties.RestorePassUnmarksHits` | packages/excalidraw/eraser/index.ts:148-186 | with current caches, every candidate the path hits ends unmarked |
| `StrokeEraserProperties.RestorePassJustifiesUnmarks` | packages/excalidraw/eraser/index.ts:159-185 | with current caches, every unmarked id is the id, bound text or container of a marked hit candidate, or a member of a group the loop dropped for such a candidate |
| `StrokeEraserProperties.ForwardUpdateSound` | packages/excalidraw/eraser/index.ts:129-229 | with current caches, a forward update marks every visible unlocked element the path hits; every new id and group is accounted for by such an element; recorded groups stay fully marked; the caches stay current |
| `StrokeEraserProperties.RestoreUpdateSound` | packages/excalidraw/eraser/index.ts:147-186 | with current caches, a restore update unmarks every visible unlocked element the path hits; every unmarked id is accounted for by such an element that was marked; a dropped group keeps no marked member |
| `StrokeEraserProperties.FewerThanTwoPointsChangeNothing` | packages/excalidraw/eraser/index.ts:143-145 | with fewer than two trail points the update reports nothing and leaves the session unchanged |
| `StrokeEraserProperties.OnlyNewestTwoPointsMatter` | packages/excalidraw/eraser/index.ts:120-127 | trails that agree on their two newest points give the same update |
| `StrokeEraserProperties.StartPathForgetsPreviousGesture` | packages/excalidraw/eraser/index.ts:90-94 | starting a gesture keeps nothing of the previous session but the shape cache |
| `StrokeEraserProperties.CrossingOneGroupMemberMarksTheGroup` | packages/excalidraw/eraser/index.ts:197-210 | crossing one member of a group marks its untouched sibling and records the group |
| `StrokeEraserProperties.LockedGroupMemberIsMarked` | packages/excalidraw/eraser/index.ts:200-209 | a locked sibling of a crossed group member is marked |
| `StrokeEraserProperties.GroupReversalIgnoresOtherJustifications` | packages/excalidraw/eraser/index.ts:160-171 | in a scene holding both elements, reversing a group unmarks a member that is still the bound text of a marked element |
| `StrokeEraserProperties.StaleShapeOutlivesEndPath` | packages/excalidraw/eraser/index.ts:232-238 | a shape cached before a move survives into the next gesture and makes the cached test disagree with the oracles |
| `PixelEraser.PixelEraserSize` | packages/excalidraw/eraser/pixelEraser.ts:122 | the radius is the eraser size, or 10 when the size is 0 |
| `PixelEraser.TestPixelIntersection` | packages/excalidraw/eraser/pixelEraser.ts:169-224 | the test records the element's shape and at most its segments; it reuses and keeps every cached entry; with a cached shape, an inside-testable element whose shape holds the centre is a hit |
| `PixelEraser.TestPixelIntersectionIsPixelHit` | packages/excalidraw/eraser/pixelEraser.ts:175-192 | with coherent caches, the cached test answers the uncached circle test, and the caches stay coherent |
| `PixelEraser.PixelHitIsGeometric` | packages/excalidraw/eraser/pixelEraser.ts:183-223 | a hit means the centre is inside an inside-testable shape, or some boundary point lies within the radius |
| `PixelEraser.PixelVisit` | packages/excalidraw/eraser/pixelEraser.ts:131-163 | a marked element is skipped; a hit adds the element, its bound text and its container and nothing else; nothing is removed |
| `PixelEraser.PixelPass` | packages/excalidraw/eraser/pixelEraser.ts:131-164 | the loop only adds ids, each the id, bound text or container of some candidate |
| `PixelEraser.UpdateElementsToErase` | packages/excalidraw/eraser/pixelEraser.ts:117-167 | the marks only grow, each new id comes from a visible unlocked element, and the report is the whole mark set |
| `PixelEraser.AddPointToPath` | packages/excalidraw/eraser/pixelEraser.ts:112-115 | the sample extends the active trail; the marks only grow, even with no active trail; the report is the mark set |
| `PixelEraser.EndPath` | packages/excalidraw/eraser/pixelEraser.ts:226-232 | the trail, the marks and both caches are cleared |
| `PixelEraser.StartPath` | packages/excalidraw/eraser/pixelEraser.ts:106-110 | a new trail at the sample with no marks and empty caches |
| `PixelEraserProperties.PixelPassSound` | packages/excalidraw/eraser/pixelEraser.ts:131-164 | every candidate the circle touches ends marked; every new id is the id, bound text or container of a touched candidate; the caches stay coherent |
| `PixelEraserProperties.UpdateSound` | packages/excalidraw/eraser/pixelEraser.ts:117-167 | with current caches, one sample marks every visible unlocked element its circle touches, each new id comes from such an element, and the caches stay current |
| `PixelEraserProperties.LockedEntersOnlyAsDependent` | packages/excalidraw/eraser/pixelEraser.ts:125-163 | with current caches, a locked element is marked only as the bound text or container of a touched unlocked element |
| `PixelEraserProperties.StartPathForgetsPreviousGesture` | packages/excalidraw/eraser/pixelEraser.ts:106-110 | starting a gesture keeps nothing of the previous session |
| `PixelEraserProperties.GroupSiblingsAreNotMarked` | packages/excalidraw/eraser/pixelEraser.ts:145-163 | touching one member of a group marks that member alone |
| `PixelTrim.NearSomeTrailPoint` | packages/excalidraw/eraser/pixelEraser.ts:322-333 | the inner loop answers whether some trail point lies within the eraser size |
| `PixelTrim.KeepFar` | packages/excalidraw/eraser/pixelEraser.ts:316-337 | the survivors are an order-preserving subsequence; a point survives exactly when it is far from every trail point, with its multiplicity kept |
| `PixelTrim.TrimElement` | packages/excalidraw/eraser/pixelEraser.ts:309-348 | null below two points; otherwise only `points` and `isDeleted` may change: fewer than two survivors give a deleted copy, otherwise the survivors replace the points |
| `PixelTrim.EraseFromFreeDrawElement` | packages/excalidraw/eraser/pixelEraser.ts:302-349 | null exactly below two points; otherwise a freedraw copy under the same id |
| `PixelTrim.EraseFromLinearElement` | packages/excalidraw/eraser/pixelEraser.ts:354-401 | null exactly below two points; otherwise a linear copy under the same id |
| `PixelTrim.EraseByKind` | packages/excalidraw/eraser/pixelEraser.ts:271-288 | freedraw and linear elements go through the same trim |
| `PixelTrim.Finalized` | packages/excalidraw/eraser/pixelEraser.ts:243-294 | nothing for empty marks or an empty trail; otherwise an entry exactly for each marked id of a live freedraw or linear scene element with at least two points |
| `PixelTrim.ProcessElementsForPixelErasing` | packages/excalidraw/eraser/pixelEraser.ts:239-297 | the loop over the marks returns elements with distinct ids that, keyed by id, are exactly the finalize entries |
| `PixelTrimProperties.KeepFarMonotoneInTrail` | packages/excalidraw/eraser/pixelEraser.ts:316-337 | against a trail with more points the survivors are a subsequence of the survivors against the smaller trail, so never more |
| `PixelTrimProperties.LongerTrailKeepsNoMore` | packages/excalidraw/eraser/pixelEraser.ts:322-333 | one more trail sample never brings a trimmed point back |
| `PixelTrimProperties.AllFarKeepsEverything` | packages/excalidraw/eraser/pixelEraser.ts:316-337 | when every point is far from the trail, every point survives in order |
| `PixelTrimProperties.EmptyTrailKeepsEverything` | packages/excalidraw/eraser/pixelEraser.ts:322-336 | an empty trail trims nothing |
| `PixelTrimProperties.SomeNearDropsAPoint` | packages/excalidraw/eraser/pixelEraser.ts:329-332 | one point within the radius of the trail makes the survivors strictly fewer |
| `PixelTrimProperties.TrimThreshold` | packages/excalidraw/eraser/pixelEraser.ts:342-348 | a live element is deleted exactly when fewer than two points survive; otherwise it keeps only far points, in order |
| `PixelTrimProperties.DeletionIsMonotoneInTrail` | packages/excalidraw/eraser/pixelEraser.ts:342-345 | a trail with more points never turns a deletion back into a trim |
| `PixelTrimProperties.FinalizedEntry` | packages/excalidraw/eraser/pixelEraser.ts:264-279 | the entry of a selected id is the trimmed scene element, under the same id and of a trimmable kind |
| `PixelTrimProperties.ZeroSizeTrimsLikeTen` | packages/excalidraw/eraser/pixelEraser.ts:255 | an eraser size of 0 trims exactly as a size of 10 |
| `PixelTrimProperties.KeepFarDependsOnlyOnGlobalPositions` | packages/excalidraw/eraser/pixelEraser.ts:316-337 | two point lists at the same global positions, point by point, keep survivors at the same global positions: the filter reads points only through `element.x + p[0]`, `element.y + p[1]` |
| `PixelTrimProperties.SameGlobalPointsTrimAlike` | packages/excalidraw/eraser/pixelEraser.ts:309-348 | two elements whose points sit at the same global positions are both skipped or both trimmed, and agree on whether fewer than two points survive |
| `PixelTrimProperties.SweepKeepsOnlyLastPoint` | packages/excalidraw/eraser/pixelEraser.ts:368-389 | a trail through the first two of three points 10 apart, with radius 5, keeps only the third point |
| `PixelTrimProperties.SweptLineIsDeleted` | packages/excalidraw/eraser/pixelEraser.ts:354-401 | that line is deleted rather than reduced to one point |
| `EraserActions.ChangeEraserSize` | packages/excalidraw/actions/actionEraser.tsx:13-18 | the size becomes the value, whatever it is; every other field is unchanged; capture is immediate and no elements change |
| `EraserActions.TogglePixelEraser` | packages/excalidraw/actions/actionEraser.tsx:55-62 | the switch becomes the value; every other field is unchanged; capture is immediate and no elements change |
| `EraserActions.EraserSettings` | packages/excalidraw/actions/actionEraser.tsx:95-108 | a size payload changes only the size, a mode payload only the switch, any other payload nothing; capture is immediate and no elements change |
| `EraserActions.SettingsAgreeWithDedicatedActions` | packages/excalidraw/actions/actionEraser.tsx:95-106 | the settings action with a size or mode payload equals the dedicated action |
| `EraserActions.PerformIsIdempotent` | packages/excalidraw/actions/actionEraser.tsx:13-108 | performing any of the three actions twice with one value equals performing it once |
| `EraserActions.LastWriteWins` | packages/excalidraw/actions/actionEraser.tsx:13-18 | a later size replaces an earlier one, and size and mode changes commute |
| `EraserSize.ZeroSizeFallsBack` | packages/excalidraw/actions/actionEraser.tsx:13-18 | a stored size of 0 makes the pixel eraser use radius 10 and the cursor radius 5 |
| `EraserSize.LargeSizeOutgrowsTheCursor` | packages/excalidraw/cursor.ts:45-49 | a size above 28 is used as the pixel radius, but the cursor image stops at 64 and the circle no longer fits |
| `Cursor.EffectiveEraserSize` | packages/excalidraw/cursor.ts:45 | the cursor size is at least 5, is 5 for a missing or zero size, and is the size itself from 5 up |
| `Cursor.CursorImageSize` | packages/excalidraw/cursor.ts:48-49 | the image is at most 64 pixels and at most the circle plus padding, and equals one of the two |
| `Cursor.Hotspot` | packages/excalidraw/cursor.ts:103-108 | the hotspot is the centre of the image |
| `Cursor.CursorImageSizeBounds` | packages/excalidraw/cursor.ts:45-49 | the image size lies in [18, 64] and the hotspot in [9, 32] |
| `Cursor.CircleFitsIffAtMost28` | packages/excalidraw/cursor.ts:47-49 | the circle with its padding fits the image exactly when the size is at most 28 |
| `Cursor.ResetCursor` | packages/excalidraw/cursor.ts:20-25 | a present canvas gets the empty style and loses the dot class |
| `Cursor.SetCursor` | packages/excalidraw/cursor.ts:27-34 | a present canvas gets the style and keeps its class |
| `Cursor.SetEraserCursor` | packages/excalidraw/cursor.ts:38-109 | the cache ends recording the theme and size; a stale cache is redrawn, even without a canvas; a fresh one is untouched; the cursor is the preview with a centred hotspot |
| `Cursor.EraserCursorShowsCurrentDrawing` | packages/excalidraw/cursor.ts:96-101 | with a current preview, the cursor always shows the drawing for the requested theme and size |
| `Cursor.SetEraserCursorIsIdempotent` | packages/excalidraw/cursor.ts:96-108 | setting the eraser cursor twice equals setting it once |
| `Cursor.SetCursorForShape` | packages/excalidraw/cursor.ts:111-138 | no canvas means no change; otherwise a canvas results; only the eraser tool touches the image cache |
| `Cursor.DispatchForgetsPreviousCursor` | packages/excalidraw/cursor.ts:115-118 | the result does not depend on the canvas's previous cursor or class |
| `Cursor.DispatchOutcomes` | packages/excalidraw/cursor.ts:120-137 | the dot class appears exactly for drawing tools; the style stays empty exactly for selection, image and drawing tools; grab, auto, eraser image and laser pointer each go with exactly one tool; the laser's light variant goes with the light theme |
| `Cursor.EraserToolCursor` | packages/excalidraw/cursor.ts:124-126 | with the eraser active, the cursor shows the drawing for the current size, centred, without the dot class |

## Left out

- Trail smoothing, animation, the decaying trail width and the fill colours of `AnimatedTrail` (index.ts:45-73, pixelEraser.ts:50-61): these are rendering and timing concerns. The trail recorder is reduced to its list of original points.
- `updateSize` and `setSize` of both sessions (index.ts:79-88, pixelEraser.ts:67-104): they write the application state and replay the trail, which is application plumbing.
- The forwarding of the newest stroke sample to the application's pixel eraser session (index.ts:111-118): it goes through an untyped application field, which is not part of this model.
- `pixelEraserTest` (index.ts:277-347): nothing calls it. `StrokeEraser.EraserTest` shows that the stroke session uses the stroke test whatever the pixel switch says.
- The bodies of the geometry and group helpers are oracles: `getElementShape`, `getElementLineSegments`, `shouldTestInside`, `isPointInShape`, `lineSegmentIntersectionPoints` and `getElementsInGroup`. `newElementWith`'s version bump is not modelled either; a copy is the element with the named fields replaced.
- IEEE floating point: coordinates are exact reals. NaN and infinities are not modelled, and neither is the rounding of `Math.hypot` and `Math.pow`.
- `PixelTrim.ProcessElementsForPixelErasing`: the order of the returned elements follows the insertion order of a JavaScript set, which is not modelled. The contract fixes the returned elements as a set keyed by id.
- All `console.log` calls, the canvas drawing in `setEraserCursor` (cursor.ts:51-94; the drawn preview is a parameter `draw`), the laser pointer's SVG data (the cursor records only which of the two variants is shown), and the React panel components of the actions.
- The slider's 1 to 50 range (actionEraser.tsx:33-35) belongs to the panel. The reducers store any value, as `EraserActions.ChangeEraserSize` states.
- The mode coordinator that chooses a session and applies the results to the scene lives in the application component. That component is not part of this model, and neither is the export code in packages/excalidraw/data/index.ts.
- The soundness lemmas of both sessions assume current caches. They say nothing about a stroke gesture that starts with a shape cached before an element moved, which `StartPath` allows because it keeps the shape cache (`StrokeEraserProperties.StaleShapeOutlivesEndPath`).
- The "forward then reverse traversal empties the marks" property is not stated. Whether a reverse pass hits the same elements depends on the geometry oracles, because the reverse segments differ from the forward ones. Also, group expansion can mark ids that no reverse segment reaches.
