/**
 The shapes that the pointer tree of x_tree.c passes through, as values: a shape names the nodes
 of a (sub)tree, a path names everything around a hole in one. Nothing here reads the heap except
 the predicates that tie a shape or a path to the pointers.
 */
module TreeShape {

  /** struct _x_node_t. The data pointer of a node never changes. */
  class Node<V> {
    var parent: Node?<V>
    var left: Node?<V>
    var right: Node?<V>
    const data: V

    constructor (data: V)
      ensures parent == left == right == null && this.data == data
    {
      parent, left, right := null, null, null;
      this.data := data;
    }
  }

  datatype Shape<V> = Empty | Fork(left: Shape<V>, node: Node<V>, right: Shape<V>)

  ghost function Nodes<V>(s: Shape<V>): set<Node<V>> {
    match s
    case Empty => {}
    case Fork(l, n, r) => Nodes(l) + {n} + Nodes(r)
  }

  ghost function InOrder<V>(s: Shape<V>): seq<Node<V>> {
    match s
    case Empty => []
    case Fork(l, n, r) => InOrder(l) + [n] + InOrder(r)
  }

  ghost function PostOrder<V>(s: Shape<V>): seq<Node<V>> {
    match s
    case Empty => []
    case Fork(l, n, r) => PostOrder(l) + PostOrder(r) + [n]
  }

  /** No node occurs twice: the tree is acyclic and nothing is shared. */
  ghost predicate Distinct<V>(s: Shape<V>) {
    match s
    case Empty => true
    case Fork(l, n, r) =>
      Distinct(l) && Distinct(r) && n !in Nodes(l) && n !in Nodes(r) && Nodes(l) !! Nodes(r)
  }

  /** p points to a tree of shape s whose top node has parent `up`. */
  ghost predicate Linked<V>(s: Shape<V>, p: Node?<V>, up: Node?<V>)
    reads Nodes(s)
  {
    match s
    case Empty => p == null
    case Fork(l, n, r) => p == n && n.parent == up && Linked(l, n.left, n) && Linked(r, n.right, n)
  }

  // ------------------------------------------------------------------ paths

  datatype Path<V> =
    | Top
    | InLeft(up: Path<V>, node: Node<V>, right: Shape<V>)
    | InRight(up: Path<V>, left: Shape<V>, node: Node<V>)

  ghost function Plug<V>(path: Path<V>, s: Shape<V>): Shape<V> {
    match path
    case Top => s
    case InLeft(up, n, r) => Plug(up, Fork(s, n, r))
    case InRight(up, l, n) => Plug(up, Fork(l, n, s))
  }

  ghost function PathNodes<V>(path: Path<V>): set<Node<V>> {
    match path
    case Top => {}
    case InLeft(up, n, r) => PathNodes(up) + {n} + Nodes(r)
    case InRight(up, l, n) => PathNodes(up) + {n} + Nodes(l)
  }

  ghost predicate PathDistinct<V>(path: Path<V>) {
    match path
    case Top => true
    case InLeft(up, n, r) =>
      PathDistinct(up) && Distinct(r) && n !in Nodes(r) && n !in PathNodes(up) && Nodes(r) !! PathNodes(up)
    case InRight(up, l, n) =>
      PathDistinct(up) && Distinct(l) && n !in Nodes(l) && n !in PathNodes(up) && Nodes(l) !! PathNodes(up)
  }

  /** The pointers around the hole: what hangs in it is `hole`, and its parent is `up`. */
  ghost predicate PathLinked<V>(path: Path<V>, root: Node?<V>, hole: Node?<V>, up: Node?<V>)
    reads PathNodes(path)
  {
    match path
    case Top => up == null && root == hole
    case InLeft(rest, n, r) =>
      up == n && n.left == hole && Linked(r, n.right, n) && PathLinked(rest, root, n, n.parent)
    case InRight(rest, l, n) =>
      up == n && n.right == hole && Linked(l, n.left, n) && PathLinked(rest, root, n, n.parent)
  }

  /** PathLinked except for the pointer into the hole. */
  ghost predicate SlotLinked<V>(path: Path<V>, root: Node?<V>)
    reads PathNodes(path)
  {
    match path
    case Top => true
    case InLeft(rest, n, r) => Linked(r, n.right, n) && PathLinked(rest, root, n, n.parent)
    case InRight(rest, l, n) => Linked(l, n.left, n) && PathLinked(rest, root, n, n.parent)
  }

  /** A tree of shape s whose top node may still have any parent. */
  ghost predicate Rooted<V>(s: Shape<V>, n: Node<V>)
    reads Nodes(s)
  {
    s.Fork? && s.node == n && Distinct(s) && Linked(s.left, n.left, n) && Linked(s.right, n.right, n)
  }

  ghost function Before<V>(path: Path<V>): seq<Node<V>> {
    match path
    case Top => []
    case InLeft(up, _, _) => Before(up)
    case InRight(up, l, n) => Before(up) + (InOrder(l) + [n])
  }

  ghost function After<V>(path: Path<V>): seq<Node<V>> {
    match path
    case Top => []
    case InLeft(up, n, r) => ([n] + InOrder(r)) + After(up)
    case InRight(up, _, _) => After(up)
  }

  /** A tree is distinct exactly when path and subtree are, and share no node. */
  lemma {:induction false} PlugDistinct<V>(path: Path<V>, s: Shape<V>)
    ensures Distinct(Plug(path, s)) <==> PathDistinct(path) && Distinct(s) && PathNodes(path) !! Nodes(s)
    ensures Nodes(Plug(path, s)) == PathNodes(path) + Nodes(s)
  {
    match path {
      case Top =>
      case InLeft(up, n, r) => PlugDistinct(up, Fork(s, n, r));
      case InRight(up, l, n) => PlugDistinct(up, Fork(l, n, s));
    }
  }

  lemma {:induction false} PlugInOrder<V>(path: Path<V>, s: Shape<V>)
    ensures InOrder(Plug(path, s)) == Before(path) + InOrder(s) + After(path)
  {
    match path {
      case Top =>
      case InLeft(up, n, r) => PlugInOrder(up, Fork(s, n, r));
      case InRight(up, l, n) => PlugInOrder(up, Fork(l, n, s));
    }
  }

  /** Linking the subtree into the hole links the whole tree. */
  lemma {:induction false} Zip<V>(path: Path<V>, s: Shape<V>, root: Node?<V>, hole: Node?<V>, up: Node?<V>)
    requires PathLinked(path, root, hole, up) && Linked(s, hole, up)
    ensures Linked(Plug(path, s), root, null)
  {
    match path {
      case Top =>
      case InLeft(rest, n, r) => Zip(rest, Fork(s, n, r), root, n, n.parent);
      case InRight(rest, l, n) => Zip(rest, Fork(l, n, s), root, n, n.parent);
    }
  }

  /** s with v as a new leaf, to which `less` shows the way: left where it holds. */
  ghost function Hung<V>(s: Shape<V>, v: Node<V>, less: V -> bool): Shape<V> {
    match s
    case Empty => Fork(Empty, v, Empty)
    case Fork(l, n, r) => if less(n.data) then Fork(Hung(l, v, less), n, r) else Fork(l, n, Hung(r, v, less))
  }

  lemma {:induction false} HungNodes<V>(s: Shape<V>, v: Node<V>, less: V -> bool)
    requires v !in Nodes(s)
    ensures Nodes(Hung(s, v, less)) == Nodes(s) + {v}
    ensures Distinct(s) ==> Distinct(Hung(s, v, less))
  {
    if s.Empty? {
    } else {
      HungNodes(s.left, v, less);
      HungNodes(s.right, v, less);
    }
  }

  /** s with r hung from its rightmost node. */
  ghost function Graft<V>(s: Shape<V>, r: Shape<V>): Shape<V> {
    match s
    case Empty => r
    case Fork(a, n, b) => Fork(a, n, Graft(b, r))
  }

  lemma {:induction false} GraftInOrder<V>(s: Shape<V>, r: Shape<V>)
    ensures InOrder(Graft(s, r)) == InOrder(s) + InOrder(r)
    ensures Nodes(Graft(s, r)) == Nodes(s) + Nodes(r)
    ensures Distinct(s) && Distinct(r) && Nodes(s) !! Nodes(r) ==> Distinct(Graft(s, r))
  {
    if s.Empty? {
    } else {
      GraftInOrder(s.right, r);
      assert InOrder(s.left) + [s.node] + (InOrder(s.right) + InOrder(r)) == InOrder(s) + InOrder(r);
    }
  }

  lemma {:induction false} GraftEmpty<V>(s: Shape<V>)
    ensures Graft(s, Empty) == s
  {
    if s.Empty? {
    } else {
      GraftEmpty(s.right);
    }
  }

  lemma {:induction false} InOrderNodes<V>(s: Shape<V>, n: Node<V>)
    ensures n in InOrder(s) <==> n in Nodes(s)
  {
    if s.Empty? {
    } else {
      InOrderNodes(s.left, n);
      InOrderNodes(s.right, n);
    }
  }
}
