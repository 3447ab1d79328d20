/**
 How the stored eraser size reaches its readers. The reducers store any
 value; the pixel eraser falls back to 10 for a size of 0, and the cursor
 shows at least 5.
 */
module EraserSize {
  import opened Base
  import opened EraserActions
  import opened PixelEraser
  import opened Cursor

  /**
   A size of 0 is stored as is, yet the pixel eraser then erases with radius
   10 and the cursor shows a circle of radius 5.
   */
  lemma ZeroSizeFallsBack(elements: seq<Element>, appState: AppState)
    ensures var state := ChangeEraserSize(elements, appState, 0.0).appState;
            && state.currentEraserSize == 0.0
            && PixelEraserSize(state) == 10.0
            && EffectiveEraserSize(Some(state.currentEraserSize)) == 5.0
  {
  }

  /**
   A size above the slider's range is stored and used as the pixel radius, but
   the cursor image stops growing at 64 pixels, so the circle no longer fits.
   */
  lemma LargeSizeOutgrowsTheCursor(elements: seq<Element>, appState: AppState, size: real)
    requires size > 28.0
    ensures var state := ChangeEraserSize(elements, appState, size).appState;
            var shown := EffectiveEraserSize(Some(state.currentEraserSize));
            && PixelEraserSize(state) == size
            && shown == size
            && CursorImageSize(shown) == 64.0
            && 2.0 * shown + 2.0 * CursorPadding > CursorImageSize(shown)
  {
  }
}
