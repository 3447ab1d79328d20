/**
 The `perform` reducers of the three eraser actions: each returns a copy of
 the application state with one eraser field replaced, asks for the change
 to be captured immediately, and leaves the elements alone.
 */
module EraserActions {
  import opened Base

  /** The store's capture modes (CaptureUpdateAction). */
  datatype CaptureUpdate = Immediately | Eventually | Never

  /**
   What a `perform` returns: the next application state, the capture mode,
   and the replacement elements, None when the action does not touch them.
   */
  datatype ActionResult = ActionResult(appState: AppState, captureUpdate: CaptureUpdate, elements: Option<seq<Element>>)

  /** The payload of the eraserSettings action: `{type: "size", size}`, `{type: "mode", enabled}` or anything else. */
  datatype SettingsValue = SizeSetting(size: real) | ModeSetting(enabled: bool) | OtherSetting(kind: string)

  /** actionChangeEraserSize.perform: store the value as the eraser size, whatever it is. */
  function ChangeEraserSize(elements: seq<Element>, appState: AppState, value: real): (r: ActionResult)
    ensures r.appState.currentEraserSize == value
    ensures r.appState.(currentEraserSize := appState.currentEraserSize) == appState
    ensures r.captureUpdate == Immediately && r.elements.None?
  {
    ActionResult(appState.(currentEraserSize := value), Immediately, None)
  }

  /** actionTogglePixelEraser.perform: store the value as the pixel-eraser switch. */
  function TogglePixelEraser(elements: seq<Element>, appState: AppState, value: bool): (r: ActionResult)
    ensures r.appState.pixelEraserEnabled == value
    ensures r.appState.(pixelEraserEnabled := appState.pixelEraserEnabled) == appState
    ensures r.captureUpdate == Immediately && r.elements.None?
  {
    ActionResult(appState.(pixelEraserEnabled := value), Immediately, None)
  }

  /** actionEraserSettings.perform: a size payload sets the size, a mode payload the switch, anything else nothing. */
  function EraserSettings(elements: seq<Element>, appState: AppState, value: SettingsValue): (r: ActionResult)
    ensures value.SizeSetting? ==>
              r.appState.currentEraserSize == value.size
              && r.appState.(currentEraserSize := appState.currentEraserSize) == appState
    ensures value.ModeSetting? ==>
              r.appState.pixelEraserEnabled == value.enabled
              && r.appState.(pixelEraserEnabled := appState.pixelEraserEnabled) == appState
    ensures value.OtherSetting? ==> r.appState == appState
    ensures r.captureUpdate == Immediately && r.elements.None?
  {
    match value
    case SizeSetting(size) => ActionResult(appState.(currentEraserSize := size), Immediately, None)
    case ModeSetting(enabled) => ActionResult(appState.(pixelEraserEnabled := enabled), Immediately, None)
    case OtherSetting(_) => ActionResult(appState, Immediately, None)
  }

  /** The settings action agrees with the dedicated actions on their payloads. */
  lemma SettingsAgreeWithDedicatedActions(elements: seq<Element>, appState: AppState, size: real, enabled: bool)
    ensures EraserSettings(elements, appState, SizeSetting(size)) == ChangeEraserSize(elements, appState, size)
    ensures EraserSettings(elements, appState, ModeSetting(enabled)) == TogglePixelEraser(elements, appState, enabled)
  {
  }

  /** Performing an action twice with the same value gives what performing it once gives. */
  lemma PerformIsIdempotent(elements: seq<Element>, appState: AppState, size: real, enabled: bool, value: SettingsValue)
    ensures var once := ChangeEraserSize(elements, appState, size);
            ChangeEraserSize(elements, once.appState, size) == once
    ensures var once := TogglePixelEraser(elements, appState, enabled);
            TogglePixelEraser(elements, once.appState, enabled) == once
    ensures var once := EraserSettings(elements, appState, value);
            EraserSettings(elements, once.appState, value) == once
  {
  }

  /** A later size replaces an earlier one, and size and mode changes commute. */
  lemma LastWriteWins(elements: seq<Element>, appState: AppState, s1: real, s2: real, enabled: bool)
    ensures ChangeEraserSize(elements, ChangeEraserSize(elements, appState, s1).appState, s2)
              == ChangeEraserSize(elements, appState, s2)
    ensures ChangeEraserSize(elements, TogglePixelEraser(elements, appState, enabled).appState, s1).appState
              == TogglePixelEraser(elements, ChangeEraserSize(elements, appState, s1).appState, enabled).appState
  {
  }
}
