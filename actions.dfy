/** The actions the service issues through performAction and startActivity, and, as pure
    functions of one captured root, the action sequence each perform* routine issues. */
module Actions {
  import opened Tree
  import opened Matcher

  /** One synthesized action: ACTION_CLICK, ACTION_FOCUS or ACTION_SET_TEXT on the node at
      a path of the captured root, or the relaunch of the automating application. */
  datatype Action = Click(target: Path) | Focus(target: Path) | SetText(target: Path, text: Option<string>) | LaunchApp

  const StartText := "Start"
  const ContinueText := "Continue"
  const DoneText := "Done"
  const GoText := "Go"
  const SearchDescription := "Search here"

  /** performStartButtonClick, performContinueButtonClick and the click half of
      performDoneButtonClick: click the parent of the first node showing the caption. */
  function ClickParent(root: Node, caption: string): seq<Action>
  {
    match FindNodeByText(root, caption)
    case None => []
    case Some(p) => if p == [] then [] else [Click(Parent(p).value)]
  }

  predicate AtMostOneClickInTree(root: Node, a: seq<Action>)
  {
    |a| <= 1 && (a != [] ==> a[0].Click? && ValidPath(root, a[0].target))
  }

  /** An attempt issues at most one action, a click on a node of the tree. */
  lemma ClickParentInTree(root: Node, caption: string)
    ensures AtMostOneClickInTree(root, ClickParent(root, caption))
  {
    var f := FindNodeByText(root, caption);
    if f.Some? && f.value != [] {
      ParentValid(root, f.value);
    }
  }

  /** An attempt issues at most one action, a click on the parent of the first match;
      it issues nothing exactly when no node shows the caption or the root does. */
  lemma ClickParentMeaning(root: Node, caption: string)
    ensures var r := ClickParent(root, caption);
      && (r != [] ==>
            |r| == 1 && r[0].Click? && ValidPath(root, r[0].target) &&
            exists p :: FirstTextMatch(root, caption, p) && p != [] && r[0].target == Parent(p).value)
      && (r == [] <==>
            (forall q :: ValidPath(root, q) ==> ComparableText(At(root, q).text) != Some(caption)) ||
            ComparableText(root.text) == Some(caption))
  {
    var f := FindNodeByText(root, caption);
    if f.Some? {
      var p := f.value;
      assert FirstTextMatch(root, caption, p);
      assert ComparableText(At(root, p).text) == Some(caption);
      if p != [] {
        assert Before([], p) && At(root, []) == root;
        ParentValid(root, p);
      }
    }
  }

  /** performDoneButtonClick: the parent click, then the relaunch whenever a "Done" node
      was found, whether or not it had a parent to click. */
  function DoneActions(root: Node): seq<Action>
  {
    ClickParent(root, DoneText) + (if FindNodeByText(root, DoneText).Some? then [LaunchApp] else [])
  }

  /** One run of the task posted by onAccessibilityEvent: the three attempts, in order,
      all against the same captured root. */
  function TaskActions(root: Node): seq<Action>
  {
    ClickParent(root, StartText) + ClickParent(root, ContinueText) + DoneActions(root)
  }

  /** performGoTabClick: click the first node showing "Go" itself. */
  function GoTabActions(root: Node): (r: seq<Action>)
    ensures r != [] ==> |r| == 1 && r[0].Click? && FirstTextMatch(root, GoText, r[0].target)
    ensures r == [] <==> forall q :: ValidPath(root, q) ==> ComparableText(At(root, q).text) != Some(GoText)
  {
    match FindNodeByText(root, GoText)
    case None => []
    case Some(p) =>
      assert ComparableText(At(root, p).text) == Some(GoText);
      [Click(p)]
  }

  /** The search bar is the first node in pre-order described "Search here". */
  ghost predicate FirstSearchBar(root: Node, p: Path)
  {
    ValidPath(root, p) && At(root, p).desc == Some(SearchDescription) &&
    forall q :: Before(q, p) ==> !AbsentSlot(root, q) && (ValidPath(root, q) ==> At(root, q).desc != Some(SearchDescription))
  }

  /** performSearch raises: findNodeByContentDescription reached a null child first. */
  predicate SearchBarRaises(root: Node)
  {
    FindNodeByContentDescription(root, SearchDescription).NullChild?
  }

  /** performSearch: focus, click and clear the text of the search bar itself. */
  function SearchBarActions(root: Node): (r: seq<Action>)
    ensures r != [] ==>
      |r| == 3 && r[0].Focus? && FirstSearchBar(root, r[0].target) &&
      r == [Focus(r[0].target), Click(r[0].target), SetText(r[0].target, None)]
    ensures r == [] <==>
      SearchBarRaises(root) ||
      forall q :: ValidPath(root, q) ==> At(root, q).desc != Some(SearchDescription)
    ensures NoAbsentChildren(root) ==> !SearchBarRaises(root)
  {
    match FindNodeByContentDescription(root, SearchDescription)
    case Found(p) => [Focus(p), Click(p), SetText(p, None)]
    case _ => []
  }

  /** performSearch acts on p exactly when p is the first search bar in pre-order with
      no null slot before it. */
  lemma SearchBarIsFirst(root: Node, p: Path)
    ensures SearchBarActions(root) == [Focus(p), Click(p), SetText(p, None)] <==> FirstSearchBar(root, p)
  {
    if FirstSearchBar(root, p) {
      var c := ByDesc(SearchDescription);
      assert forall q :: Before(q, p) ==> !Stop(root, q, c, false);
      FirstStopUnique(root, c, false, Found(p));
    }
  }

  /** Each attempt clicks the parent of the first match, and nothing when that match is
      the root. */
  lemma ClickParentOfFirstMatch(root: Node, caption: string, p: Path)
    requires FirstTextMatch(root, caption, p)
    ensures ClickParent(root, caption) == if p == [] then [] else [Click(p[..|p| - 1])]
  {
    FindNodeByTextIsFirstMatch(root, caption, p);
  }

  /** The relaunch is issued if and only if some node shows "Done", and then it is the
      last action of the task. */
  lemma LaunchIffDone(root: Node)
    ensures var a := TaskActions(root);
      && (LaunchApp in a <==>
            exists q :: ValidPath(root, q) && ComparableText(At(root, q).text) == Some(DoneText))
      && (LaunchApp in a ==> a[|a| - 1] == LaunchApp)
  {
    var s, c, d := ClickParent(root, StartText), ClickParent(root, ContinueText), ClickParent(root, DoneText);
    var a := TaskActions(root);
    assert LaunchApp !in s + c + d;
    if FindNodeByText(root, DoneText).Some? {
      assert a == (s + c + d) + [LaunchApp];
      assert a[|a| - 1] == LaunchApp;
      var p := FindNodeByText(root, DoneText).value;
      assert ValidPath(root, p) && ComparableText(At(root, p).text) == Some(DoneText);
    } else {
      assert a == s + c + d;
    }
  }

  /** A task issues at most four actions; all but the last are clicks, and every click
      targets a node of the captured tree. */
  lemma TaskActionsShape(root: Node)
    ensures var a := TaskActions(root);
      && |a| <= 4
      && (forall k :: 0 <= k < |a| - 1 ==> a[k].Click?)
      && (forall k :: 0 <= k < |a| && a[k].Click? ==> ValidPath(root, a[k].target))
  {
    var s, c, d := ClickParent(root, StartText), ClickParent(root, ContinueText), ClickParent(root, DoneText);
    ClickParentInTree(root, StartText);
    ClickParentInTree(root, ContinueText);
    ClickParentInTree(root, DoneText);
    var l := if FindNodeByText(root, DoneText).Some? then [LaunchApp] else [];
    assert TaskActions(root) == s + c + d + l;
    ClicksThenLaunch(root, s, c, d, l);
  }

  lemma ClicksThenLaunch(root: Node, s: seq<Action>, c: seq<Action>, d: seq<Action>, l: seq<Action>)
    requires AtMostOneClickInTree(root, s) && AtMostOneClickInTree(root, c) && AtMostOneClickInTree(root, d)
    requires l == [] || l == [LaunchApp]
    ensures var a := s + c + d + l;
      && |a| <= 4
      && (forall k :: 0 <= k < |a| - 1 ==> a[k].Click?)
      && (forall k :: 0 <= k < |a| && a[k].Click? ==> ValidPath(root, a[k].target))
  {
  }

  /** A tree showing none of the three captions yields a task that issues nothing. */
  lemma NoCaptionsNoActions(root: Node)
    requires forall q :: ValidPath(root, q) ==>
      ComparableText(At(root, q).text) !in {Some(StartText), Some(ContinueText), Some(DoneText)}
    ensures TaskActions(root) == []
  {
  }

  /** With all three captions below the root, one task clicks the three parents in order
      Start, Continue, Done and then relaunches. */
  lemma FullFlowInOneTask(root: Node, s: Path, c: Path, d: Path)
    requires FirstTextMatch(root, StartText, s) && s != []
    requires FirstTextMatch(root, ContinueText, c) && c != []
    requires FirstTextMatch(root, DoneText, d) && d != []
    ensures TaskActions(root) ==
      [Click(s[..|s| - 1]), Click(c[..|c| - 1]), Click(d[..|d| - 1]), LaunchApp]
  {
    ClickParentOfFirstMatch(root, StartText, s);
    ClickParentOfFirstMatch(root, ContinueText, c);
    ClickParentOfFirstMatch(root, DoneText, d);
  }

  /** A "Done" root has no parent to click, and the relaunch is still issued. */
  lemma DoneAtRootStillLaunches(root: Node)
    requires ComparableText(root.text) == Some(DoneText)
    ensures DoneActions(root) == [LaunchApp]
  {
  }
}
