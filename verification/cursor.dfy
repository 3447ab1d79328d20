/**
 The canvas cursor: the eraser cursor's size and hotspot arithmetic, the
 module-level cache of the drawn eraser image, and the dispatch from the
 active tool to a cursor. The canvas is reduced to its cursor style and the
 presence of the dot-cursor class.
 */
module Cursor {
  import opened Base

  /** The smallest eraser radius the cursor shows; also the size used when none is given. */
  const MinCursorEraserSize: real := 5.0

  /** The padding around the circle in the cursor image. */
  const CursorPadding: real := 4.0

  /** The largest cursor image. */
  const MaxCursorImageSize: real := 64.0

  /** `Math.max(5, size || 5)`: a missing or zero size becomes 5, and smaller sizes are raised to 5. */
  function EffectiveEraserSize(size: Option<real>): (r: real)
    ensures r >= MinCursorEraserSize
    ensures size.None? || size.value == 0.0 ==> r == MinCursorEraserSize
    ensures size.Some? && size.value >= MinCursorEraserSize ==> r == size.value
    ensures r == MinCursorEraserSize || (size.Some? && r == size.value)
  {
    var given := match size case None => MinCursorEraserSize case Some(v) => OrDefault(v, MinCursorEraserSize);
    if given < MinCursorEraserSize then MinCursorEraserSize else given
  }

  /** `Math.min(eraserSize * 2 + padding * 2, 64)`. */
  function CursorImageSize(eraserSize: real): (r: real)
    ensures r <= MaxCursorImageSize && r <= 2.0 * eraserSize + 2.0 * CursorPadding
    ensures r == MaxCursorImageSize || r == 2.0 * eraserSize + 2.0 * CursorPadding
  {
    var wanted := 2.0 * eraserSize + 2.0 * CursorPadding;
    if wanted < MaxCursorImageSize then wanted else MaxCursorImageSize
  }

  /** The hotspot, on both axes, of a cursor image of the given size: its centre. */
  function Hotspot(imageSize: real): (r: real)
    ensures 2.0 * r == imageSize
  {
    imageSize / 2.0
  }

  /** The image size for any requested eraser size lies between 18 and 64 pixels. */
  lemma CursorImageSizeBounds(size: Option<real>)
    ensures 18.0 <= CursorImageSize(EffectiveEraserSize(size)) <= 64.0
    ensures 9.0 <= Hotspot(CursorImageSize(EffectiveEraserSize(size))) <= 32.0
  {
  }

  /** The circle and its padding fit in the image exactly when the effective size is at most 28. */
  lemma CircleFitsIffAtMost28(size: Option<real>)
    ensures var s := EffectiveEraserSize(size);
            2.0 * s + 2.0 * CursorPadding <= CursorImageSize(s) <==> s <= 28.0
  {
  }

  /** What the drawn canvas records about itself: the theme and size it was drawn for. */
  datatype CanvasCache = CanvasCache(theme: Theme, eraserSize: real)

  /** The module state: `eraserCanvasCache` (None until the first draw) and `previewDataURL`. */
  datatype CursorGlobals = CursorGlobals(cache: Option<CanvasCache>, preview: string)

  const NoCursorGlobals := CursorGlobals(None, "")

  /** The cached image is stale: there is none, or it was drawn for another theme or size. */
  predicate NeedsRedraw(g: CursorGlobals, theme: Theme, eraserSize: real) {
    g.cache.None? || g.cache.value.theme != theme || g.cache.value.eraserSize != eraserSize
  }

  /** The cursor styles the dispatch sets; `Unset` is the empty style string. */
  datatype CursorStyle =
    | Unset
    | Grab
    | Auto
    | EraserImage(dataUrl: string, hotspotX: real, hotspotY: real)
    | LaserPointer(lightMode: bool)

  /** The interactive canvas: its cursor style and whether it carries the dot-cursor class. */
  datatype Canvas = Canvas(cursor: CursorStyle, dotClass: bool)

  /** resetCursor: clear the style and drop the dot class; a missing canvas stays missing. */
  function ResetCursor(canvas: Option<Canvas>): (r: Option<Canvas>)
    ensures canvas.None? ==> r.None?
    ensures canvas.Some? ==> r == Some(Canvas(Unset, false))
  {
    match canvas
    case None => None
    case Some(_) => Some(Canvas(Unset, false))
  }

  /** setCursor: set the style and keep the class list; a missing canvas stays missing. */
  function SetCursor(canvas: Option<Canvas>, style: CursorStyle): (r: Option<Canvas>)
    ensures canvas.None? ==> r.None?
    ensures canvas.Some? ==> r == Some(canvas.value.(cursor := style))
  {
    match canvas
    case None => None
    case Some(c) => Some(c.(cursor := style))
  }

  /**
   setEraserCursor: redraw the image through `draw` when the cache is stale
   (even without a canvas), then point the cursor at the preview with its
   hotspot in the centre.
   */
  function SetEraserCursor(draw: (Theme, real) -> string, canvas: Option<Canvas>, g: CursorGlobals, theme: Theme, size: Option<real>): (r: (Option<Canvas>, CursorGlobals))
    ensures var s := EffectiveEraserSize(size);
            && r.1.cache == Some(CanvasCache(theme, s))
            && (NeedsRedraw(g, theme, s) ==> r.1.preview == draw(theme, s))
            && (!NeedsRedraw(g, theme, s) ==> r.1 == g)
    ensures canvas.None? ==> r.0.None?
    ensures canvas.Some? ==>
              var h := Hotspot(CursorImageSize(EffectiveEraserSize(size)));
              r.0 == Some(canvas.value.(cursor := EraserImage(r.1.preview, h, h)))
  {
    var eraserSize := EffectiveEraserSize(size);
    var imageSize := CursorImageSize(eraserSize);
    var g' := if NeedsRedraw(g, theme, eraserSize) then CursorGlobals(Some(CanvasCache(theme, eraserSize)), draw(theme, eraserSize)) else g;
    (SetCursor(canvas, EraserImage(g'.preview, Hotspot(imageSize), Hotspot(imageSize))), g')
  }

  /** The preview is the drawing of the cached theme and size. */
  ghost predicate PreviewCurrent(draw: (Theme, real) -> string, g: CursorGlobals) {
    g.cache.Some? ==> g.preview == draw(g.cache.value.theme, g.cache.value.eraserSize)
  }

  /**
   The cache is transparent: from a current preview, the eraser cursor always
   shows the drawing for the requested theme and effective size, and the
   preview stays current.
   */
  lemma EraserCursorShowsCurrentDrawing(draw: (Theme, real) -> string, canvas: Option<Canvas>, g: CursorGlobals, theme: Theme, size: Option<real>)
    requires PreviewCurrent(draw, g)
    ensures var r := SetEraserCursor(draw, canvas, g, theme, size);
            && PreviewCurrent(draw, r.1)
            && r.1.preview == draw(theme, EffectiveEraserSize(size))
  {
  }

  /** Setting the eraser cursor twice with the same arguments gives what setting it once gives. */
  lemma SetEraserCursorIsIdempotent(draw: (Theme, real) -> string, canvas: Option<Canvas>, g: CursorGlobals, theme: Theme, size: Option<real>)
    ensures var once := SetEraserCursor(draw, canvas, g, theme, size);
            SetEraserCursor(draw, once.0, once.1, theme, size) == once
  {
  }

  /**
   setCursorForShape: nothing without a canvas; otherwise reset, then by the
   active tool: selection stays reset, hand grabs, eraser shows the eraser
   cursor for the current size, laser shows the laser pointer for the theme,
   image stays reset, custom gets the auto cursor, and every other tool gets
   the dot class.
   */
  function SetCursorForShape(draw: (Theme, real) -> string, canvas: Option<Canvas>, g: CursorGlobals, state: AppState): (r: (Option<Canvas>, CursorGlobals))
    ensures canvas.None? ==> r == (None, g)
    ensures canvas.Some? ==> r.0.Some?
    ensures state.activeTool != Eraser ==> r.1 == g
  {
    if canvas.None? then (None, g)
    else
      var reset := ResetCursor(canvas);
      match state.activeTool
      case Selection => (reset, g)
      case Hand => (SetCursor(reset, Grab), g)
      case Eraser => SetEraserCursor(draw, reset, g, state.theme, Some(state.currentEraserSize))
      case Laser => (SetCursor(reset, LaserPointer(state.theme == Light)), g)
      case OtherTool => (Some(reset.value.(dotClass := true)), g)
      case Custom => (SetCursor(reset, Auto), g)
      case Image => (reset, g)
  }

  /** The dispatch does not depend on what the canvas showed before. */
  lemma DispatchForgetsPreviousCursor(draw: (Theme, real) -> string, c1: Canvas, c2: Canvas, g: CursorGlobals, state: AppState)
    ensures SetCursorForShape(draw, Some(c1), g, state) == SetCursorForShape(draw, Some(c2), g, state)
  {
  }

  /**
   The dispatch table, read backwards: the dot class appears exactly for the
   drawing tools, the style stays empty exactly for selection, image and the
   drawing tools, and the laser pointer's light variant goes with the light theme.
   */
  lemma DispatchOutcomes(draw: (Theme, real) -> string, c: Canvas, g: CursorGlobals, state: AppState)
    ensures var r := SetCursorForShape(draw, Some(c), g, state).0.value;
            && (r.dotClass <==> state.activeTool == OtherTool)
            && (r.cursor == Unset <==> state.activeTool in {Selection, Image, OtherTool})
            && (r.cursor == Grab <==> state.activeTool == Hand)
            && (r.cursor == Auto <==> state.activeTool == Custom)
            && (r.cursor.EraserImage? <==> state.activeTool == Eraser)
            && (r.cursor.LaserPointer? <==> state.activeTool == Laser)
            && (r.cursor.LaserPointer? ==> (r.cursor.lightMode <==> state.theme == Light))
  {
  }

  /** With the eraser active, the cursor shows the current drawing for `max(5, currentEraserSize || 5)`, centred. */
  lemma EraserToolCursor(draw: (Theme, real) -> string, c: Canvas, g: CursorGlobals, state: AppState)
    requires state.activeTool == Eraser
    requires PreviewCurrent(draw, g)
    ensures var s := EffectiveEraserSize(Some(state.currentEraserSize));
            var h := Hotspot(CursorImageSize(s));
            SetCursorForShape(draw, Some(c), g, state).0 == Some(Canvas(EraserImage(draw(state.theme, s), h, h), false))
  {
    EraserCursorShowsCurrentDrawing(draw, Some(Canvas(Unset, false)), g, state.theme, Some(state.currentEraserSize));
  }
}
