/** Accessibility events as the service receives them. Only the event type is read. */
module Events {

  /** AccessibilityEvent.TYPE_WINDOW_STATE_CHANGED (0x20). */
  const WindowStateChanged: int := 0x20
  /** AccessibilityEvent.TYPE_WINDOW_CONTENT_CHANGED (0x800). */
  const WindowContentChanged: int := 0x800

  datatype AccessibilityEvent = AccessibilityEvent(eventType: int)
}
