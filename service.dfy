/** The live accessibility service. onAccessibilityEvent captures the active window's
    root and posts a task to the main-thread handler; running the task clicks through
    "Start", "Continue" and "Done" on that one captured root and relaunches the
    automating application once "Done" is seen. The handler queue is the sequence
    pending, and every performAction or startActivity call is appended to log. */
module MapsService {
  import opened Tree
  import opened Matcher
  import opened Actions
  import opened Events

  /** Kotlin's Long. */
  newtype Long = x: int | -0x8000_0000_0000_0000 <= x < 0x8000_0000_0000_0000

  const DefaultDelayMs: Long := 3000

  /** A runnable posted with postDelayed: its delay and the root it captured. */
  datatype Task = Task(delay: Long, root: Node)

  /** The event filter: a window state or content change while the active window has
      a root. */
  predicate Schedules(event: Option<AccessibilityEvent>, rootInActiveWindow: Option<Node>)
  {
    event.Some? &&
    (event.value.eventType == WindowStateChanged || event.value.eventType == WindowContentChanged) &&
    rootInActiveWindow.Some?
  }

  class Service {
    var delayMs: Long
    /** Posted tasks in the order the handler runs them (see Valid). */
    var pending: seq<Task>
    var log: seq<Action>

    /** Every pending task waits the same delayMs, so the tasks come due in the order
        they were posted and the head of pending is the next one to run. */
    ghost predicate Valid()
      reads this`pending, this`delayMs
    {
      forall t :: t in pending ==> t.delay == delayMs
    }

    constructor(delay: Long := DefaultDelayMs)
      ensures Valid()
      ensures delayMs == delay && pending == [] && log == []
    {
      delayMs := delay;
      pending := [];
      log := [];
    }

    /** onAccessibilityEvent: post one task, delayed by delayMs, that captures the
        current root; any other event, or no root, changes nothing. */
    method OnAccessibilityEvent(event: Option<AccessibilityEvent>, rootInActiveWindow: Option<Node>)
      requires Valid()
      modifies this`pending
      ensures Valid()
      ensures pending == old(pending) +
        if Schedules(event, rootInActiveWindow) then [Task(delayMs, rootInActiveWindow.value)] else []
    {
      if event.Some? {
        if event.value.eventType == WindowStateChanged || event.value.eventType == WindowContentChanged {
          if rootInActiveWindow.Some? {
            pending := pending + [Task(delayMs, rootInActiveWindow.value)];
          }
        }
      }
    }

    /** The handler runs the next due task, if there is one: the three attempts in
        order against the root that task captured. */
    method RunNextTask() returns (ran: bool)
      requires Valid()
      modifies this`pending, this`log
      ensures Valid()
      ensures ran == (old(pending) != [])
      ensures ran ==> pending == old(pending)[1..] && log == old(log) + TaskActions(old(pending)[0].root)
      ensures !ran ==> pending == old(pending) && log == old(log)
    {
      ran := pending != [];
      if ran {
        var task := pending[0];
        pending := pending[1..];
        assert Valid();
        PerformStartButtonClick(task.root);
        PerformContinueButtonClick(task.root);
        PerformDoneButtonClick(task.root);
      }
    }

    /** Click the parent of the first node showing the caption, if both exist. */
    method ClickParentOf(root: Node, caption: string)
      modifies this`log
      ensures log == old(log) + ClickParent(root, caption)
    {
      var button := FindNodeByText(root, caption);
      if button.Some? {
        var parent := Parent(button.value);
        if parent.Some? {
          log := log + [Click(parent.value)];
        }
      }
    }

    method PerformStartButtonClick(root: Node)
      modifies this`log
      ensures log == old(log) + ClickParent(root, StartText)
    {
      ClickParentOf(root, StartText);
    }

    method PerformContinueButtonClick(root: Node)
      modifies this`log
      ensures log == old(log) + ClickParent(root, ContinueText)
    {
      ClickParentOf(root, ContinueText);
    }

    method PerformDoneButtonClick(root: Node)
      modifies this`log
      ensures log == old(log) + DoneActions(root)
    {
      ClickParentOf(root, DoneText);
      var doneButton := FindNodeByText(root, DoneText);
      if doneButton.Some? {
        LaunchPOCMapsApp();
      }
    }

    /** launchPOCMapsApp: bring the automating application to the front. */
    method LaunchPOCMapsApp()
      modifies this`log
      ensures log == old(log) + [LaunchApp]
    {
      log := log + [LaunchApp];
    }

    /** performGoTabClick: click the "Go" node itself. */
    method PerformGoTabClick(root: Node)
      modifies this`log
      ensures log == old(log) + GoTabActions(root)
    {
      var goTab := FindNodeByText(root, GoText);
      if goTab.Some? {
        log := log + [Click(goTab.value)];
      }
    }

    /** performSearch: focus, click and clear the search bar itself; raised says the
        search hit a null child and threw before any action. */
    method PerformSearch(root: Node) returns (raised: bool)
      modifies this`log
      ensures raised == SearchBarRaises(root)
      ensures log == old(log) + SearchBarActions(root)
    {
      raised := false;
      var searchBar := FindNodeByContentDescription(root, SearchDescription);
      match searchBar
      case Found(p) =>
        log := log + [Focus(p)];
        log := log + [Click(p)];
        log := log + [SetText(p, None)];
      case NotFound =>
      case NullChild(_) =>
        raised := true;
    }
  }
}
