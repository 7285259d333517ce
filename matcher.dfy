/** The tree matcher: recursive depth-first pre-order searches that return the path of
    the first node meeting a criterion. findNodeByText skips null child slots;
    findNodeByContentDescription passes a null child straight into the recursive call,
    whose first dereference raises a NullPointerException; that outcome is NullChild. */
module Matcher {
  import opened Tree

  datatype Criterion = ByText(target: string) | ByDesc(target: string)

  datatype Outcome = Found(path: Path) | NotFound | NullChild(at: Path)

  /** The node text as findNodeByText compares it: a String as it is, a SpannableString
      through toString(), and nothing for null or any other CharSequence. */
  function ComparableText(t: TextVal): Option<string>
  {
    match t
    case Plain(s) => Some(s)
    case Spannable(s) => Some(s)
    case _ => None
  }

  predicate Matches(n: Node, c: Criterion)
  {
    match c
    case ByText(t) => ComparableText(n.text) == Some(t)
    case ByDesc(d) => n.desc == Some(d)
  }

  /** The shared search. With skipNull a null child slot is passed over; without it the
      search stops there with NullChild. */
  function Search(n: Node, c: Criterion, skipNull: bool): Outcome
    decreases n, 1, 0
  {
    if Matches(n, c) then Found([]) else SearchChildren(n, 0, c, skipNull)
  }

  /** The loop over child slots i, i+1, ..., childCount-1 with its early return. */
  function SearchChildren(n: Node, i: nat, c: Criterion, skipNull: bool): Outcome
    decreases n, 0, |n.children| - i
  {
    if i >= |n.children| then NotFound
    else match n.children[i]
      case None =>
        if skipNull then SearchChildren(n, i + 1, c, skipNull) else NullChild([i])
      case Some(child) =>
        match Search(child, c, skipNull)
        case Found(p) => Found([i] + p)
        case NullChild(p) => NullChild([i] + p)
        case NotFound => SearchChildren(n, i + 1, c, skipNull)
  }

  /** What the search stops at, walking in pre-order: a matching node, or a null slot
      when null slots are not skipped. */
  ghost predicate Stop(n: Node, q: Path, c: Criterion, skipNull: bool)
  {
    (ValidPath(n, q) && Matches(At(n, q), c)) || (!skipNull && AbsentSlot(n, q))
  }

  /** The reference meaning of a search outcome: the first stop in pre-order, or
      NotFound when there is none. */
  ghost predicate FirstStop(n: Node, c: Criterion, skipNull: bool, r: Outcome)
  {
    match r
    case Found(p) =>
      ValidPath(n, p) && Matches(At(n, p), c) &&
      forall q :: Before(q, p) ==> !Stop(n, q, c, skipNull)
    case NullChild(p) =>
      !skipNull && AbsentSlot(n, p) &&
      forall q :: Before(q, p) ==> !Stop(n, q, c, skipNull)
    case NotFound =>
      forall q :: !Stop(n, q, c, skipNull)
  }

  /** FirstStop restricted to the subtrees of child slots i and after. */
  ghost predicate FirstStopFrom(n: Node, i: nat, c: Criterion, skipNull: bool, r: Outcome)
  {
    match r
    case Found(p) =>
      |p| > 0 && p[0] >= i && ValidPath(n, p) && Matches(At(n, p), c) &&
      forall q :: |q| > 0 && q[0] >= i && Before(q, p) ==> !Stop(n, q, c, skipNull)
    case NullChild(p) =>
      |p| > 0 && p[0] >= i && !skipNull && AbsentSlot(n, p) &&
      forall q :: |q| > 0 && q[0] >= i && Before(q, p) ==> !Stop(n, q, c, skipNull)
    case NotFound =>
      forall q :: |q| > 0 && q[0] >= i ==> !Stop(n, q, c, skipNull)
  }

  /** The search returns the first stop in pre-order. */
  lemma {:induction false} SearchIsFirstStop(n: Node, c: Criterion, skipNull: bool)
    ensures FirstStop(n, c, skipNull, Search(n, c, skipNull))
    decreases n, 1, 0
  {
    if !Matches(n, c) {
      SearchChildrenIsFirstStop(n, 0, c, skipNull);
    }
  }

  lemma {:induction false} SearchChildrenIsFirstStop(n: Node, i: nat, c: Criterion, skipNull: bool)
    ensures FirstStopFrom(n, i, c, skipNull, SearchChildren(n, i, c, skipNull))
    decreases n, 0, |n.children| - i
  {
    if i >= |n.children| {
      forall q | |q| > 0 && q[0] >= i ensures !Stop(n, q, c, skipNull) {
        StopUnfold(n, q, c, skipNull);
      }
    } else {
      match n.children[i]
      case None =>
        if skipNull {
          SearchChildrenIsFirstStop(n, i + 1, c, skipNull);
          NullSlotSkipped(n, i, c);
        } else {
          NullSlotStops(n, i, c);
        }
      case Some(child) =>
        SearchIsFirstStop(child, c, skipNull);
        if Search(child, c, skipNull).NotFound? {
          SearchChildrenIsFirstStop(n, i + 1, c, skipNull);
          ChildMissed(n, i, c, skipNull);
        } else {
          ChildHit(n, i, c, skipNull);
        }
    }
  }

  /** One step of Stop down a child slot. */
  lemma StopUnfold(n: Node, q: Path, c: Criterion, skipNull: bool)
    requires |q| > 0
    ensures q[0] >= |n.children| ==> !Stop(n, q, c, skipNull)
    ensures q[0] < |n.children| && n.children[q[0]].None? ==>
      (Stop(n, q, c, skipNull) <==> !skipNull && |q| == 1)
    ensures q[0] < |n.children| && n.children[q[0]].Some? ==>
      (Stop(n, q, c, skipNull) <==> Stop(n.children[q[0]].value, q[1..], c, skipNull))
  {
  }

  lemma NullSlotSkipped(n: Node, i: nat, c: Criterion)
    requires i < |n.children| && n.children[i].None?
    requires FirstStopFrom(n, i + 1, c, true, SearchChildren(n, i + 1, c, true))
    ensures FirstStopFrom(n, i, c, true, SearchChildren(n, i, c, true))
  {
  }

  lemma NullSlotStops(n: Node, i: nat, c: Criterion)
    requires i < |n.children| && n.children[i].None?
    ensures FirstStopFrom(n, i, c, false, SearchChildren(n, i, c, false))
  {
  }

  lemma ChildHit(n: Node, i: nat, c: Criterion, skipNull: bool)
    requires i < |n.children| && n.children[i].Some?
    requires !Search(n.children[i].value, c, skipNull).NotFound?
    requires FirstStop(n.children[i].value, c, skipNull, Search(n.children[i].value, c, skipNull))
    ensures FirstStopFrom(n, i, c, skipNull, SearchChildren(n, i, c, skipNull))
  {
  }

  lemma ChildMissed(n: Node, i: nat, c: Criterion, skipNull: bool)
    requires i < |n.children| && n.children[i].Some?
    requires Search(n.children[i].value, c, skipNull).NotFound?
    requires FirstStop(n.children[i].value, c, skipNull, NotFound)
    requires FirstStopFrom(n, i + 1, c, skipNull, SearchChildren(n, i + 1, c, skipNull))
    ensures FirstStopFrom(n, i, c, skipNull, SearchChildren(n, i, c, skipNull))
  {
    forall q | |q| > 0 && q[0] == i ensures !Stop(n, q, c, skipNull) {
      StopUnfold(n, q, c, skipNull);
    }
  }

  /** The first stop determines the outcome: the search is the only outcome that
      meets the reference meaning. */
  lemma FirstStopUnique(n: Node, c: Criterion, skipNull: bool, r: Outcome)
    requires FirstStop(n, c, skipNull, r)
    ensures r == Search(n, c, skipNull)
  {
    SearchIsFirstStop(n, c, skipNull);
    var s := Search(n, c, skipNull);
    if r != s && !r.NotFound? && !s.NotFound? {
      var p := if r.Found? then r.path else r.at;
      var q := if s.Found? then s.path else s.at;
      if p == q {
        if r.NullChild? {
          AbsentNotValid(n, p);
        } else {
          AbsentNotValid(n, q);
        }
      } else {
        BeforeTotal(p, q);
      }
    } else if r.NotFound? && !s.NotFound? {
      assert Stop(n, if s.Found? then s.path else s.at, c, skipNull);
    } else if s.NotFound? && !r.NotFound? {
      assert Stop(n, if r.Found? then r.path else r.at, c, skipNull);
    }
  }

  /** A null slot is not a node of the tree. */
  lemma {:induction false} AbsentNotValid(n: Node, p: Path)
    requires AbsentSlot(n, p)
    ensures !ValidPath(n, p)
    decreases p
  {
    if n.children[p[0]].Some? {
      AbsentNotValid(n.children[p[0]].value, p[1..]);
    }
  }

  /** The first-stop meaning of a text search, spelled out on node texts. */
  lemma TextSearchMeaning(root: Node, text: string)
    ensures var r := Search(root, ByText(text), true);
      && !r.NullChild?
      && (r.Found? ==>
            ValidPath(root, r.path) && ComparableText(At(root, r.path).text) == Some(text) &&
            forall q :: Before(q, r.path) && ValidPath(root, q) ==> ComparableText(At(root, q).text) != Some(text))
      && (r.NotFound? ==>
            forall q :: ValidPath(root, q) ==> ComparableText(At(root, q).text) != Some(text))
  {
    var c := ByText(text);
    SearchIsFirstStop(root, c, true);
    var r := Search(root, c, true);
    if r.Found? {
      forall q | Before(q, r.path) && ValidPath(root, q)
        ensures ComparableText(At(root, q).text) != Some(text)
      {
        assert !Stop(root, q, c, true);
      }
    } else if r.NotFound? {
      forall q | ValidPath(root, q) ensures ComparableText(At(root, q).text) != Some(text) {
        assert !Stop(root, q, c, true);
      }
    }
  }

  /** The first-stop meaning of a description search, spelled out on descriptions and
      null slots. */
  lemma DescSearchMeaning(root: Node, description: string)
    ensures var r := Search(root, ByDesc(description), false);
      && (r.Found? ==> ValidPath(root, r.path) && At(root, r.path).desc == Some(description))
      && (r.NullChild? ==> AbsentSlot(root, r.at))
      && (r.Found? || r.NullChild? ==>
            var p := if r.Found? then r.path else r.at;
            forall q :: Before(q, p) ==>
              !AbsentSlot(root, q) && (ValidPath(root, q) ==> At(root, q).desc != Some(description)))
      && (r.NotFound? ==>
            forall q :: !AbsentSlot(root, q) && (ValidPath(root, q) ==> At(root, q).desc != Some(description)))
  {
    var c := ByDesc(description);
    SearchIsFirstStop(root, c, false);
    var r := Search(root, c, false);
    if r.Found? || r.NullChild? {
      var p := if r.Found? then r.path else r.at;
      forall q | Before(q, p)
        ensures !AbsentSlot(root, q) && (ValidPath(root, q) ==> At(root, q).desc != Some(description))
      {
        assert !Stop(root, q, c, false);
      }
    } else {
      forall q
        ensures !AbsentSlot(root, q) && (ValidPath(root, q) ==> At(root, q).desc != Some(description))
      {
        assert !Stop(root, q, c, false);
      }
    }
  }

  /** findNodeByText: the first node in pre-order whose String or SpannableString text
      equals the target, or null (None) when the tree has none. */
  function FindNodeByText(root: Node, text: string): (r: Option<Path>)
    ensures r.Some? ==>
      ValidPath(root, r.value) && ComparableText(At(root, r.value).text) == Some(text)
    ensures r.Some? ==>
      forall q :: Before(q, r.value) && ValidPath(root, q) ==> ComparableText(At(root, q).text) != Some(text)
    ensures r.None? <==>
      forall q :: ValidPath(root, q) ==> ComparableText(At(root, q).text) != Some(text)
  {
    TextSearchMeaning(root, text);
    match Search(root, ByText(text), true)
    case Found(p) => Some(p)
    case _ => None
  }

  /** findNodeByContentDescription: the first node in pre-order whose description
      equals the target; the search raises at a null child slot it reaches first. */
  function FindNodeByContentDescription(root: Node, description: string): (r: Outcome)
    ensures r.Found? ==>
      ValidPath(root, r.path) && At(root, r.path).desc == Some(description)
    ensures r.NullChild? ==> AbsentSlot(root, r.at)
    ensures r.Found? || r.NullChild? ==>
      var p := if r.Found? then r.path else r.at;
      forall q :: Before(q, p) ==>
        !AbsentSlot(root, q) && (ValidPath(root, q) ==> At(root, q).desc != Some(description))
    ensures r.NotFound? ==>
      forall q :: !AbsentSlot(root, q) && (ValidPath(root, q) ==> At(root, q).desc != Some(description))
    ensures NoAbsentChildren(root) ==> !r.NullChild?
  {
    DescSearchMeaning(root, description);
    Search(root, ByDesc(description), false)
  }

  /** The node first in pre-order whose comparable text is the caption. */
  ghost predicate FirstTextMatch(root: Node, caption: string, p: Path)
  {
    ValidPath(root, p) && ComparableText(At(root, p).text) == Some(caption) &&
    forall q :: Before(q, p) && ValidPath(root, q) ==> ComparableText(At(root, q).text) != Some(caption)
  }

  /** findNodeByText returns exactly the first match in pre-order: ties between nodes
      with the same text go to the one met first. */
  lemma FindNodeByTextIsFirstMatch(root: Node, caption: string, p: Path)
    ensures FindNodeByText(root, caption) == Some(p) <==> FirstTextMatch(root, caption, p)
  {
    var r := FindNodeByText(root, caption);
    if FirstTextMatch(root, caption, p) {
      assert r.Some?;
      if r.value != p {
        BeforeTotal(r.value, p);
      }
    }
  }

  /** A null text or a CharSequence other than String and SpannableString never matches,
      even with the right characters, yet the children are still searched. */
  lemma IncomparableTextSearchesChildren(n: Node, text: string)
    requires n.text.NoText? || n.text.OtherSeq?
    ensures FindNodeByText(n, text) != Some([])
    ensures FindNodeByText(n, text).Some? <==>
      exists q :: |q| > 0 && ValidPath(n, q) && ComparableText(At(n, q).text) == Some(text)
  {
  }

  /** A child slot the loop passes over: null and skipped, or a subtree with no result. */
  predicate Misses(n: Node, j: nat, c: Criterion, skipNull: bool)
    requires j < |n.children|
  {
    match n.children[j]
    case None => skipNull
    case Some(child) => Search(child, c, skipNull).NotFound?
  }

  /** The loop's early return at slot k, carrying result r. */
  predicate HitAt(n: Node, k: nat, c: Criterion, skipNull: bool, r: Outcome)
    requires k < |n.children|
  {
    match r
    case NotFound => false
    case Found(p) =>
      |p| > 0 && p[0] == k && n.children[k].Some? &&
      Search(n.children[k].value, c, skipNull) == Found(p[1..])
    case NullChild(p) =>
      |p| > 0 && p[0] == k &&
      match n.children[k]
      case None => !skipNull && p == [k]
      case Some(child) => Search(child, c, skipNull) == NullChild(p[1..])
  }

  /** The loop tries slots in index order and returns the first result it gets. */
  lemma {:induction false} SearchChildrenInOrder(n: Node, i: nat, c: Criterion, skipNull: bool)
    ensures var r := SearchChildren(n, i, c, skipNull);
      && (r.NotFound? <==> forall j :: i <= j < |n.children| ==> Misses(n, j, c, skipNull))
      && (!r.NotFound? ==>
            var p := if r.Found? then r.path else r.at;
            && |p| > 0 && i <= p[0] < |n.children|
            && (forall j :: i <= j < p[0] ==> Misses(n, j, c, skipNull))
            && HitAt(n, p[0], c, skipNull, r))
    decreases |n.children| - i
  {
    if i < |n.children| {
      var r := SearchChildren(n, i, c, skipNull);
      if Misses(n, i, c, skipNull) {
        SearchChildrenInOrder(n, i + 1, c, skipNull);
      } else {
        match n.children[i]
        case None =>
        case Some(child) =>
          var p := if r.Found? then r.path else r.at;
          assert p[1..] == (if Search(child, c, skipNull).Found? then Search(child, c, skipNull).path
                            else Search(child, c, skipNull).at);
      }
    }
  }

  /** findNodeByText below a root that does not match: the first child, in index order,
      whose recursive search finds a node supplies the result; null children are passed over. */
  lemma TextChildrenInOrder(n: Node, text: string)
    requires ComparableText(n.text) != Some(text)
    ensures var r := FindNodeByText(n, text);
      && (r.None? <==>
            forall j :: 0 <= j < |n.children| && n.children[j].Some? ==>
              FindNodeByText(n.children[j].value, text).None?)
      && (r.Some? ==>
            var k := r.value[0];
            && k < |n.children| && n.children[k].Some?
            && FindNodeByText(n.children[k].value, text) == Some(r.value[1..])
            && forall j :: 0 <= j < k && n.children[j].Some? ==>
                 FindNodeByText(n.children[j].value, text).None?)
  {
    var c := ByText(text);
    SearchChildrenInOrder(n, 0, c, true);
    forall j | 0 <= j < |n.children| && n.children[j].Some?
      ensures FindNodeByText(n.children[j].value, text).None? <==> Misses(n, j, c, true)
    {
      TextSearchMeaning(n.children[j].value, text);
    }
  }

  /** findNodeByContentDescription returns the root exactly when the root's own
      description is the target. */
  lemma DescRootFirst(n: Node, description: string)
    ensures FindNodeByContentDescription(n, description) == Found([]) <==> n.desc == Some(description)
  {
  }

  /** findNodeByContentDescription below a root that does not match: children in index
      order, the first non-null recursive result wins, and null comes back only when
      every child was searched in vain; a null child reached first raises. */
  lemma DescChildrenInOrder(n: Node, description: string)
    requires n.desc != Some(description)
    ensures var r := FindNodeByContentDescription(n, description);
      && (r.NotFound? <==>
            forall j :: 0 <= j < |n.children| ==>
              n.children[j].Some? && FindNodeByContentDescription(n.children[j].value, description).NotFound?)
      && (r.Found? ==>
            var k := r.path[0];
            && k < |n.children| && n.children[k].Some?
            && FindNodeByContentDescription(n.children[k].value, description) == Found(r.path[1..])
            && forall j :: 0 <= j < k ==>
                 n.children[j].Some? && FindNodeByContentDescription(n.children[j].value, description).NotFound?)
      && (r.NullChild? ==>
            var k := r.at[0];
            && k < |n.children|
            && (n.children[k].None? ==> r.at == [k])
            && (n.children[k].Some? ==>
                  FindNodeByContentDescription(n.children[k].value, description) == NullChild(r.at[1..]))
            && forall j :: 0 <= j < k ==>
                 n.children[j].Some? && FindNodeByContentDescription(n.children[j].value, description).NotFound?)
  {
    var c := ByDesc(description);
    SearchChildrenInOrder(n, 0, c, false);
    forall j | 0 <= j < |n.children|
      ensures (n.children[j].Some? && FindNodeByContentDescription(n.children[j].value, description).NotFound?)
              <==> Misses(n, j, c, false)
    {
    }
  }

  /** With no null child slot anywhere, the unchecked description search gives the
      same result as one that checked for null the way findNodeByText does. */
  lemma {:induction false} NoNullSlotsNoDifference(n: Node, c: Criterion)
    requires NoAbsentChildren(n)
    ensures Search(n, c, false) == Search(n, c, true)
    decreases n, 1, 0
  {
    if !Matches(n, c) {
      NoNullSlotsChildren(n, 0, c);
    }
  }

  lemma {:induction false} NoNullSlotsChildren(n: Node, i: nat, c: Criterion)
    requires NoAbsentChildren(n)
    ensures SearchChildren(n, i, c, false) == SearchChildren(n, i, c, true)
    decreases n, 0, |n.children| - i
  {
    if i < |n.children| {
      match n.children[i]
      case None =>
        assert AbsentSlot(n, [i]);
        assert false;
      case Some(child) =>
        forall p ensures !AbsentSlot(child, p) {
          assert ([i] + p)[1..] == p;
          assert !AbsentSlot(n, [i] + p);
        }
        NoNullSlotsNoDifference(child, c);
        NoNullSlotsChildren(n, i + 1, c);
    }
  }
}
