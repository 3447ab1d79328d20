/**
 The data model shared by the erasure engine: drawing elements, points and
 segments in the canvas's global coordinate space, and the part of the
 application state that the eraser reads and writes.
 */
module Base {

  /** The conventional Some/None datatype, used for the source's optional values. */
  datatype Option<+T> = None | Some(value: T)

  type Id = string
  type GroupId = string

  /** A point in global (canvas) coordinates, or a local offset inside an element. */
  datatype Point = Point(x: real, y: real)

  /** A straight segment from `a` to `b`. */
  datatype Segment = Segment(a: Point, b: Point)

  /** The element kinds the erasure engine distinguishes; `Linear` covers lines and arrows. */
  datatype ElementType = FreeDraw | Linear | Generic | Text | Frame | Other

  /**
   An element of the scene, reduced to the fields the erasure engine reads.
   `points` are offsets relative to the element origin (`x`, `y`).
   `groupIds` is ordered innermost to outermost, as in the scene store.
   `containerId` is the container of a bound text element, and `boundTextId`
   the bound text of a container; each is None when the relation is absent.
   */
  datatype Element = Element(
    id: Id,
    kind: ElementType,
    x: real,
    y: real,
    points: seq<Point>,
    groupIds: seq<GroupId>,
    containerId: Option<Id>,
    boundTextId: Option<Id>,
    locked: bool,
    isDeleted: bool)
  {
    /**
     `groupIds.at(-1)`: the last group id, or None for an ungrouped element.
     The source uses that value as a key even when it is `undefined`.
     */
    function ShallowestGroupId(): (r: Option<GroupId>)
      ensures r.None? <==> |groupIds| == 0
      ensures r.Some? ==> r.value == groupIds[|groupIds| - 1] && r.value in groupIds
    {
      if |groupIds| == 0 then None else Some(groupIds[|groupIds| - 1])
    }

    /** The ids a hit on this element marks besides the group: itself, its bound text and its container. */
    function Dependents(): set<Id> {
      {id} + OptionSet(boundTextId) + OptionSet(containerId)
    }
  }

  function OptionSet<T>(o: Option<T>): set<T> {
    match o
    case None => {}
    case Some(v) => {v}
  }

  datatype Theme = Light | Dark

  /** The active tool kinds the cursor dispatch distinguishes; every drawing tool is `OtherTool`. */
  datatype ToolType = Selection | Hand | Eraser | Laser | Image | Custom | OtherTool

  /**
   The application state fields the eraser reads and writes. `others` stands for
   every remaining field, which the eraser never interprets.
   */
  datatype AppState = AppState(
    activeTool: ToolType,
    theme: Theme,
    currentEraserSize: real,
    pixelEraserEnabled: bool,
    others: map<string, string>)

  /** The JavaScript idiom `n || fallback` on a number: zero falls back. */
  function OrDefault(n: real, fallback: real): (r: real)
    ensures n == 0.0 ==> r == fallback
    ensures n != 0.0 ==> r == n
  {
    if n == 0.0 then fallback else n
  }

  /** `a` is an order-preserving subsequence of `b`. */
  predicate IsSubsequence<T(==)>(a: seq<T>, b: seq<T>)
    decreases |b|
  {
    if |a| == 0 then true
    else if |b| == 0 then false
    else (a[0] == b[0] && IsSubsequence(a[1..], b[1..])) || IsSubsequence(a, b[1..])
  }

  lemma {:induction false} SubsequenceIsShorter<T>(a: seq<T>, b: seq<T>)
    requires IsSubsequence(a, b)
    ensures |a| <= |b|
    ensures forall x :: x in a ==> x in b
    decreases |b|
  {
    if |a| == 0 {
    } else if a[0] == b[0] && IsSubsequence(a[1..], b[1..]) {
      SubsequenceIsShorter(a[1..], b[1..]);
      forall x | x in a ensures x in b {
        if x != a[0] {
          assert x in a[1..];
        }
      }
    } else {
      SubsequenceIsShorter(a, b[1..]);
    }
  }

  lemma SubsequenceOfCons<T>(a: seq<T>, x: T, b: seq<T>)
    requires IsSubsequence(a, b)
    ensures IsSubsequence(a, [x] + b)
  {
    if |a| > 0 {
      assert ([x] + b)[1..] == b;
    }
  }

  lemma SubsequenceKeepsHead<T>(a: seq<T>, x: T, b: seq<T>)
    requires IsSubsequence(a, b)
    ensures IsSubsequence([x] + a, [x] + b)
  {
    assert ([x] + a)[1..] == a;
    assert ([x] + b)[1..] == b;
  }
}
