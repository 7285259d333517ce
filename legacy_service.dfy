/** The earlier root-level accessibility service: on a window state change it looks
    for the search bar at once, with no delay and no task queue, and focuses, clicks
    and clears it. Content changes are ignored. */
module LegacyMapsService {
  import opened Tree
  import opened Matcher
  import opened Actions
  import opened Events

  /** The event filter: a window state change while the active window has a root. */
  predicate Triggers(event: Option<AccessibilityEvent>, rootInActiveWindow: Option<Node>)
  {
    event.Some? && event.value.eventType == WindowStateChanged && rootInActiveWindow.Some?
  }

  class LegacyService {
    var log: seq<Action>

    constructor()
      ensures log == []
    {
      log := [];
    }

    /** onAccessibilityEvent: run performSearch on the current root straight away;
        raised says the search threw at a null child. */
    method OnAccessibilityEvent(event: Option<AccessibilityEvent>, rootInActiveWindow: Option<Node>)
      returns (raised: bool)
      modifies this`log
      ensures raised == (Triggers(event, rootInActiveWindow) && SearchBarRaises(rootInActiveWindow.value))
      ensures log == old(log) +
        if Triggers(event, rootInActiveWindow) then SearchBarActions(rootInActiveWindow.value) else []
    {
      raised := false;
      if event.Some? && event.value.eventType == WindowStateChanged {
        if rootInActiveWindow.Some? {
          raised := PerformSearch(rootInActiveWindow.value);
        }
      }
    }

    /** performSearch: focus, click and clear the search bar itself. */
    method PerformSearch(root: Node) returns (raised: bool)
      modifies this`log
      ensures raised == SearchBarRaises(root)
      ensures log == old(log) + SearchBarActions(root)
    {
      raised := false;
      var searchBar := FindNodeByContentDescription(root, SearchDescription);
      match searchBar
      case Found(p) =>
        log := log + [Focus(p)];
        log := log + [Click(p)];
        log := log + [SetText(p, None)];
      case NotFound =>
      case NullChild(_) =>
        raised := true;
    }
  }
}
