/** A read-only snapshot of an accessibility tree, as the service sees it through
    AccessibilityNodeInfo: each node has a text, a content description and an ordered
    list of child slots, any of which may come back null from getChild(i).
    A node is addressed by its path of child indices from the root; the parent of the
    node at path p is the node at p minus its last index, and the root has no parent. */
module Tree {

  datatype Option<+T> = None | Some(value: T)

  /** The runtime class of AccessibilityNodeInfo.getText(): null, a String, a
      SpannableString, or any other CharSequence implementation. */
  datatype TextVal = NoText | Plain(s: string) | Spannable(s: string) | OtherSeq(s: string)

  datatype Node = Node(text: TextVal, desc: Option<string>, children: seq<Option<Node>>)

  type Path = seq<nat>

  /** p leads, slot by slot, through present children to a node of the tree. */
  predicate ValidPath(n: Node, p: Path)
    decreases p
  {
    p == [] ||
    (p[0] < |n.children| && n.children[p[0]].Some? && ValidPath(n.children[p[0]].value, p[1..]))
  }

  /** The node at a valid path. */
  function At(n: Node, p: Path): Node
    requires ValidPath(n, p)
    decreases p
  {
    if p == [] then n else At(n.children[p[0]].value, p[1..])
  }

  /** p names a child slot that exists (its index is below the parent's childCount)
      but holds null. */
  predicate AbsentSlot(n: Node, p: Path)
    decreases p
  {
    |p| > 0 && p[0] < |n.children| &&
    match n.children[p[0]]
    case None => |p| == 1
    case Some(c) => AbsentSlot(c, p[1..])
  }

  /** The tree has no null child slot anywhere. */
  ghost predicate NoAbsentChildren(n: Node)
  {
    forall p :: !AbsentSlot(n, p)
  }

  /** q comes strictly before p in a depth-first pre-order walk: q is a proper
      prefix of p (an ancestor), or at the first index where they differ q's is smaller. */
  predicate Before(q: Path, p: Path)
    decreases p
  {
    |p| > 0 && (|q| == 0 || q[0] < p[0] || (q[0] == p[0] && Before(q[1..], p[1..])))
  }

  /** The path of a node's parent; the root has none. */
  function Parent(p: Path): (r: Option<Path>)
    ensures r.None? <==> p == []
    ensures r.Some? ==> r.value + [p[|p| - 1]] == p
  {
    if p == [] then None else Some(p[..|p| - 1])
  }

  /** Pre-order is total: of two different paths one comes first. */
  lemma {:induction false} BeforeTotal(p: Path, q: Path)
    requires p != q
    ensures Before(p, q) || Before(q, p)
    decreases p
  {
    if |p| > 0 && |q| > 0 && p[0] == q[0] {
      BeforeTotal(p[1..], q[1..]);
    }
  }

  /** Every prefix of a valid path is valid: the ancestors of a node are in the tree. */
  lemma {:induction false} PrefixValid(n: Node, p: Path, k: nat)
    requires ValidPath(n, p) && k <= |p|
    ensures ValidPath(n, p[..k])
    decreases p
  {
    if k > 0 {
      assert p[..k][1..] == p[1..][..k - 1];
      PrefixValid(n.children[p[0]].value, p[1..], k - 1);
    }
  }

  /** The parent of a node in the tree is in the tree. */
  lemma ParentValid(n: Node, p: Path)
    requires ValidPath(n, p) && p != []
    ensures ValidPath(n, Parent(p).value)
  {
    PrefixValid(n, p, |p| - 1);
  }
}
