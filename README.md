# POCMaps accessibility engine, modelled in Dafny

POCMaps opens Google Maps and then uses an Android accessibility service to
click through the Maps confirmation screens for it. This project models that service:

- the **tree matcher**: `findNodeByText` and `findNodeByContentDescription`, each a
  recursive depth-first pre-order search over an `AccessibilityNodeInfo` tree;
- the **dispatcher and event handler** of the live service
  (`app/src/main/java/com/guilhermepaiva/pocmaps/MapsAccessibilityService.kt`):
  - the event filter;
  - the delayed task that tries "Start", "Continue" and "Done" on one captured root and
    clicks each match's parent;
  - the relaunch of the app when "Done" is found;
  - `performGoTabClick` and `performSearch`, which the live file defines but never calls;
- the older root-level service (`app/MapsAccessibilityService.kt`), which runs
  `performSearch` directly on each window state change.

A captured root is an immutable value `Node(text, desc, children)`. Each child slot is
an `Option<Node>`, because `getChild(i)` may return null. The text records its runtime
class: null, `String`, `SpannableString` or another `CharSequence`. A matched node is
returned as its **path** of child indices. So the parent of a match is the path minus its
last index, and the root has no parent. Pre-order on paths is the relation
`Tree.Before`: an ancestor comes first, then the smaller index at the first point where
two paths differ. Both searches are proved to return the *first* node in this order that
meets their criterion (`Matcher.SearchIsFirstStop`). That outcome is also the only one
that meets the criterion's definition (`Matcher.FirstStopUnique`).

The two services are classes:

- `Service` has fields `delayMs`, `pending` (the handler's queue of posted tasks) and
  `log` (every `performAction`/`startActivity` call, as `Click`, `Focus`, `SetText` or
  `LaunchApp`). Its invariant `Valid` says every pending task carries `delayMs`.
- `LegacyService` has only a `log`.

Each method's `ensures` gives the new state in terms of pure functions in module
`Actions`. The lemmas about those functions state what one task does.

What the code does, and so what the model does:

- The code keeps no flow-step variable. Every posted task tries all three captions, in order,
  on the root it captured.
- A task that finds "Done" relaunches the app every time. Nothing limits it to once per
  run.
- `findNodeByContentDescription` does not check `getChild(i)` for null. A null child
  reached before any match makes the next recursive call throw a
  `NullPointerException` (its first act is to dereference the null node). The search
  treats such a child as a failure, not as an absent node. The model makes this an
  outcome, `NullChild(at)`, not a precondition. `Matcher.NoNullSlotsNoDifference` shows
  that on trees without null children the unchecked search gives the same result as a
  null-checking one.

Files:

- `tree.dfy`: nodes, paths, pre-order.
- `matcher.dfy`: the searches.
- `actions.dfy`: the action sequences.
- `events.dfy`: event type constants.
- `service.dfy`: the live service.
- `legacy_service.dfy`: the older service.

## Model

| member | source | states |
|---|---|---|
| Matcher.SearchIsFirstStop | app/src/main/java/com/guilhermepaiva/pocmaps/MapsAccessibilityService.kt:92-135 | The shared recursive search returns the first node in pre-order that meets the criterion. When null children are not skipped, it returns the first null slot reached before any such node. It returns NotFound when there is neither. |
| Matcher.FirstStopUnique | app/src/main/java/com/guilhermepaiva/pocmaps/MapsAccessibilityService.kt:92-135 | Any outcome that meets the first-in-pre-order definition equals the search's result, so the definition fully determines the search. |
| Matcher.FindNodeByText | app/src/main/java/com/guilhermepaiva/pocmaps/MapsAccessibilityService.kt:92-117 | A returned path leads to a node whose String or SpannableString text equals the target. No node earlier in pre-order has that text. None is returned exactly when no node of the tree has it. Null children are skipped, never a failure. |
| Matcher.FindNodeByTextIsFirstMatch | app/src/main/java/com/guilhermepaiva/pocmaps/MapsAccessibilityService.kt:93-114 | findNodeByText returns p if and only if p is the first match in pre-order. Ties go to the node visited first. |
| Matcher.IncomparableTextSearchesChildren | app/src/main/java/com/guilhermepaiva/pocmaps/MapsAccessibilityService.kt:94-104 | A root whose text is null or another CharSequence is never returned, even when its characters equal the target. A match is still found exactly when some proper descendant has the text. |
| Matcher.TextChildrenInOrder | app/src/main/java/com/guilhermepaiva/pocmaps/MapsAccessibilityService.kt:106-114 | Below a root that does not match, the result comes from the lowest-index present child whose own search succeeds. Every present child before it finds nothing, and null children are passed over. None is returned iff every present child finds nothing. |
| Matcher.FindNodeByContentDescription | app/src/main/java/com/guilhermepaiva/pocmaps/MapsAccessibilityService.kt:119-135 | A found path leads to a node whose description equals the target. No earlier node matches and no earlier slot is null. A NullChild outcome names a null slot with no match or null slot before it. NotFound means the tree has neither. Without null slots the search never raises. |
| Matcher.DescRootFirst | app/MapsAccessibilityService.kt:37-41 | The root itself is returned if and only if its content description equals the target. |
| Matcher.DescChildrenInOrder | app/MapsAccessibilityService.kt:43-51 | Below a non-matching root, children are tried in index order and the first non-null recursive result is returned. Every earlier child is present and finds nothing. Null is returned iff every child is present and finds nothing. A null child reached first raises. |
| Matcher.NoNullSlotsNoDifference | app/src/main/java/com/guilhermepaiva/pocmaps/MapsAccessibilityService.kt:126-130 | On a tree with no null child, the description search without a null check (lines 127-128) gives the same result as the null-checking loop of findNodeByText (lines 107-108). |
| Actions.ClickParentMeaning | app/src/main/java/com/guilhermepaiva/pocmaps/MapsAccessibilityService.kt:48-56 | An attempt issues at most one action: a click on the parent of the first node showing the caption. That parent is a node of the tree. Nothing is issued exactly when no node shows the caption or the root does. |
| Actions.ClickParentOfFirstMatch | app/src/main/java/com/guilhermepaiva/pocmaps/MapsAccessibilityService.kt:49-50 | Given the first match p, an attempt issues Click(parent of p). If p is the root, it issues nothing. |
| Actions.LaunchIffDone | app/src/main/java/com/guilhermepaiva/pocmaps/MapsAccessibilityService.kt:58-64 | A task relaunches the app if and only if some node shows "Done". The relaunch is the task's last action. |
| Actions.DoneAtRootStillLaunches | app/src/main/java/com/guilhermepaiva/pocmaps/MapsAccessibilityService.kt:59-63 | A "Done" match with no parent gets no click, but the relaunch is still issued. |
| Actions.TaskActionsShape | app/src/main/java/com/guilhermepaiva/pocmaps/MapsAccessibilityService.kt:38-42 | A task issues at most four actions. All but the last are clicks, and every click targets a node of the captured tree. |
| Actions.NoCaptionsNoActions | app/src/main/java/com/guilhermepaiva/pocmaps/MapsAccessibilityService.kt:38-42 | A tree showing none of "Start", "Continue" and "Done" yields a task that issues nothing. |
| Actions.FullFlowInOneTask | app/src/main/java/com/guilhermepaiva/pocmaps/MapsAccessibilityService.kt:38-64 | With all three captions below the root, one task clicks the Start, Continue and Done parents in that order, then relaunches. |
| Actions.GoTabActions | app/src/main/java/com/guilhermepaiva/pocmaps/MapsAccessibilityService.kt:72-80 | performGoTabClick clicks the first "Go" node itself, not its parent. It issues nothing when there is no "Go" node. |
| Actions.SearchBarActions | app/src/main/java/com/guilhermepaiva/pocmaps/MapsAccessibilityService.kt:82-90 | performSearch issues exactly Focus, Click, SetText(null) on the first "Search here" node itself. It issues nothing exactly when there is no such node or the search raises. It cannot raise on a tree without null children. |
| Actions.SearchBarIsFirst | app/MapsAccessibilityService.kt:26-34 | performSearch acts on p if and only if p is the first "Search here" node in pre-order and no null slot comes before it. |
| MapsService.Service.constructor | app/src/main/java/com/guilhermepaiva/pocmaps/MapsAccessibilityService.kt:20-22 | The service starts with the given delay (default 3000), no pending task and no action issued, and its invariant holds. |
| MapsService.Service.OnAccessibilityEvent | app/src/main/java/com/guilhermepaiva/pocmaps/MapsAccessibilityService.kt:30-46 | A window state or content change with a root appends one task with delay delayMs and that root. Any other event, a null event or a null root leaves the queue as it was. Nothing else changes, and the invariant is kept. |
| MapsService.Service.RunNextTask | app/src/main/java/com/guilhermepaiva/pocmaps/MapsAccessibilityService.kt:38-42 | Running the next task removes it from the queue. It appends the Start, Continue and Done actions for the root that task captured. With no task nothing changes. |
| MapsService.Service.PerformStartButtonClick | app/src/main/java/com/guilhermepaiva/pocmaps/MapsAccessibilityService.kt:48-51 | Appends the "Start" attempt's actions to the log. |
| MapsService.Service.PerformContinueButtonClick | app/src/main/java/com/guilhermepaiva/pocmaps/MapsAccessibilityService.kt:53-56 | Appends the "Continue" attempt's actions to the log. |
| MapsService.Service.PerformDoneButtonClick | app/src/main/java/com/guilhermepaiva/pocmaps/MapsAccessibilityService.kt:58-64 | Appends the "Done" parent click, then LaunchApp when "Done" was found. |
| MapsService.Service.LaunchPOCMapsApp | app/src/main/java/com/guilhermepaiva/pocmaps/MapsAccessibilityService.kt:66-70 | Appends exactly one LaunchApp. |
| MapsService.Service.PerformGoTabClick | app/src/main/java/com/guilhermepaiva/pocmaps/MapsAccessibilityService.kt:72-80 | Appends the Go-tab actions to the log. |
| MapsService.Service.PerformSearch | app/src/main/java/com/guilhermepaiva/pocmaps/MapsAccessibilityService.kt:82-90 | Appends the search-bar actions. Reports raised exactly when the description search hit a null child, in which case nothing is appended. |
| LegacyMapsService.LegacyService.OnAccessibilityEvent | app/MapsAccessibilityService.kt:13-24 | Only a window state change with a root runs performSearch, at once and with no queue: its actions are appended and its raise is reported. Content changes, null events and a null root change nothing. |
| LegacyMapsService.LegacyService.PerformSearch | app/MapsAccessibilityService.kt:26-34 | Appends exactly Focus, Click, SetText(null) on the search bar, or nothing when there is none. Reports raised when the search hit a null child. |

## Left out

- `MainActivity.kt` and `LocationInput.kt` are not part of this model. They are Compose UI and an intent launch, with no logic of their own.
- `onCreate` reads `delay_ms` from SharedPreferences. The model takes the delay as a constructor parameter with default 3000 instead.
- Handler and Looper timing are not modelled. `postDelayed` appends a task that records its delay, and `RunNextTask` runs the oldest one. The class invariant `Service.Valid` states that every pending task carries the current `delayMs`. The constructor sets it up, and `OnAccessibilityEvent` and `RunNextTask` keep it, so the tasks come due in the order they were posted. No clock is modelled.
- The handler runs on the main looper, so posted tasks run one at a time, as `RunNextTask` does, and several may be waiting in `pending` at once. A task may, in the app, act on a tree that has changed since its event; that is the live-tree omission below.
- `launchPOCMapsApp` looks the app up through the package manager and calls `startActivity`, which receives null when no launch intent exists. The model records this as one opaque `LaunchApp` action.
- `onServiceConnected` (the event-type mask and the Maps package filter), `onInterrupt` and the `Log` calls are platform configuration and I/O. They are not modelled.
- The accessibility tree changes live in the app. Each captured root is treated as an immutable snapshot. `getParent()` is taken to be the node one level up the captured path, and the boolean returned by `performAction` is ignored, as in the app.
- A `NullPointerException` from `findNodeByContentDescription` is reported as `raised` and issues no actions. What happens to the service after an uncaught exception is not modelled.
- `delayMs` is a 64-bit `Long` (newtype `Long`). No arithmetic is done on it, so its range only limits which delays can be configured.
