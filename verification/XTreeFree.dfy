/** x_tree_free_with: destructive post-order release of a whole tree. */
module XTreeFree {
  import opened TreeShape

  /** The nodes that are still to be released once the subtree in the hole is gone, in order. */
  ghost function Pending<V>(path: Path<V>): seq<Node<V>> {
    match path
    case Top => []
    case InLeft(up, n, r) => PostOrder(r) + [n] + Pending(up)
    case InRight(up, _, n) => [n] + Pending(up)
  }

  /** The walk has gone right only where nothing was left on the left. */
  ghost predicate LeftsGone<V>(path: Path<V>) {
    match path
    case Top => true
    case InLeft(up, _, _) => LeftsGone(up)
    case InRight(up, l, _) => l == Empty && LeftsGone(up)
  }

  ghost predicate IsChild<V>(s: Shape<V>, c: Node<V>, p: Node<V>) {
    s.Fork? && (
      || (p == s.node && s.left.Fork? && s.left.node == c)
      || (p == s.node && s.right.Fork? && s.right.node == c)
      || IsChild(s.left, c, p)
      || IsChild(s.right, c, p))
  }

  lemma {:induction false} PostOrderNodes<V>(s: Shape<V>, n: Node<V>)
    ensures n in PostOrder(s) <==> n in Nodes(s)
  {
    if s.Empty? {
    } else {
      PostOrderNodes(s.left, n);
      PostOrderNodes(s.right, n);
    }
  }

  /** Post-order visits no node twice. */
  lemma {:induction false} PostOrderOnce<V>(s: Shape<V>, i: nat, j: nat)
    requires Distinct(s) && i < j < |PostOrder(s)|
    ensures PostOrder(s)[i] != PostOrder(s)[j]
  {
    var l, r, q := PostOrder(s.left), PostOrder(s.right), PostOrder(s);
    if j < |l| {
      PostOrderOnce(s.left, i, j);
    } else if |l| <= i && j < |q| - 1 {
      PostOrderOnce(s.right, i - |l|, j - |l|);
    } else {
      PostOrderNodes(s.left, q[i]);
      PostOrderNodes(s.right, q[i]);
      PostOrderNodes(s.right, q[j]);
      assert i < |l| ==> q[i] == l[i];
      assert |l| <= i ==> q[i] == r[i - |l|];
      assert j < |q| - 1 ==> q[j] == r[j - |l|];
    }
  }

  lemma {:induction false} ChildNodes<V>(s: Shape<V>, c: Node<V>, p: Node<V>)
    requires IsChild(s, c, p)
    ensures c in Nodes(s) && p in Nodes(s)
  {
    if IsChild(s.left, c, p) {
      ChildNodes(s.left, c, p);
    } else if IsChild(s.right, c, p) {
      ChildNodes(s.right, c, p);
    }
  }

  /** Post-order visits every child before its parent. */
  lemma {:induction false} ChildFirst<V>(s: Shape<V>, c: Node<V>, p: Node<V>, i: nat, j: nat)
    requires Distinct(s) && IsChild(s, c, p)
    requires i < |PostOrder(s)| && j < |PostOrder(s)| && PostOrder(s)[i] == c && PostOrder(s)[j] == p
    ensures i < j
  {
    var l, r, q := PostOrder(s.left), PostOrder(s.right), PostOrder(s);
    ChildNodes(s, c, p);
    PostOrderNodes(s.left, c);
    PostOrderNodes(s.left, p);
    PostOrderNodes(s.right, c);
    PostOrderNodes(s.right, p);
    assert i < |l| ==> c == l[i];
    assert j < |l| ==> p == l[j];
    assert |l| <= i < |q| - 1 ==> c == r[i - |l|];
    assert |l| <= j < |q| - 1 ==> p == r[j - |l|];
    if IsChild(s.left, c, p) {
      ChildNodes(s.left, c, p);
      ChildFirst(s.left, c, p, i, j);
    } else if IsChild(s.right, c, p) {
      ChildNodes(s.right, c, p);
      ChildFirst(s.right, c, p, i - |l|, j - |l|);
    }
  }

  lemma Shift<T>(a: seq<T>, x: T, b: seq<T>)
    ensures a + ([x] + b) == (a + [x]) + b
  {
  }

  lemma GoLeft<V>(at: Path<V>, s: Shape<V>)
    requires s.Fork?
    ensures PostOrder(s) + Pending(at) == PostOrder(s.left) + Pending(InLeft(at, s.node, s.right))
  {
  }

  lemma GoRight<V>(at: Path<V>, s: Shape<V>)
    requires s.Fork? && s.left == Empty
    ensures PostOrder(s) + Pending(at) == PostOrder(s.right) + Pending(InRight(at, Empty, s.node))
  {
  }

  /** x_next_leaf: down from node to a leaf, left first. */
  method NextLeaf<V>(
    node: Node?<V>, ghost root: Node?<V>, ghost path: Path<V>, ghost s: Shape<V>, ghost freed: set<Node<V>>)
    returns (m: Node?<V>, ghost at: Path<V>)
    requires node == null ==> s == Empty
    requires node != null ==> PathLinked(path, root, node, node.parent) && Linked(s, node, node.parent)
    requires freed !! Nodes(s)
    ensures node == null ==> m == null
    ensures node != null ==>
              && m != null && m in Nodes(s)
              && m.left == null && m.right == null && PathLinked(at, root, m, m.parent)
              && Plug(at, Fork(Empty, m, Empty)) == Plug(path, s)
              && [m] + Pending(at) == PostOrder(s) + Pending(path)
              && (LeftsGone(path) ==> LeftsGone(at))
  {
    m, at := node, path;
    if node == null {
      return;
    }
    ghost var sub := s;
    while true
      invariant m != null && PathLinked(at, root, m, m.parent) && Linked(sub, m, m.parent)
      invariant Nodes(sub) <= Nodes(s) && Plug(at, sub) == Plug(path, s)
      invariant PostOrder(sub) + Pending(at) == PostOrder(s) + Pending(path)
      invariant LeftsGone(path) ==> LeftsGone(at)
      decreases sub
    {
      assert m !in freed;
      if m.left != null {
        GoLeft(at, sub);
        at, sub := InLeft(at, m, sub.right), sub.left;
        m := m.left;
      } else if m.right != null {
        GoRight(at, sub);
        at, sub := InRight(at, sub.left, m), sub.right;
        m := m.right;
      } else {
        assert sub == Fork(Empty, m, Empty);
        return;
      }
    }
  }

  /** What is left around a leaf's place once the leaf is gone, and its path. */
  ghost function Without<V>(at: Path<V>): (Path<V>, Shape<V>) {
    match at
    case Top => (Top, Empty)
    case InLeft(up, q, r) => (up, Fork(Empty, q, r))
    case InRight(up, l, q) => (up, Fork(l, q, Empty))
  }

  lemma WithoutLeaf<V>(at: Path<V>, n: Node<V>)
    requires Distinct(Plug(at, Fork(Empty, n, Empty))) && LeftsGone(at)
    ensures var (path, s) := Without(at);
            && Distinct(Plug(path, s)) && LeftsGone(path)
            && Nodes(Plug(path, s)) == Nodes(Plug(at, Fork(Empty, n, Empty))) - {n}
            && PostOrder(s) + Pending(path) == Pending(at)
            && n in Nodes(Plug(at, Fork(Empty, n, Empty)))
  {
    PlugDistinct(at, Fork(Empty, n, Empty));
    PlugDistinct(at, Empty);
    assert Plug(at, Empty) == Plug(Without(at).0, Without(at).1);
  }

  /** Take the leaf n out of its parent's slot. */
  method Unlink<V>(n: Node<V>, ghost root: Node?<V>, ghost at: Path<V>, ghost freed: set<Node<V>>) returns (p: Node?<V>)
    requires PathLinked(at, root, n, n.parent) && PathDistinct(at) && n !in PathNodes(at)
    requires freed !! PathNodes(at) + {n}
    modifies PathNodes(at)`left, PathNodes(at)`right
    ensures var (path, s) := Without(at);
            if p == null then at == Top
            else PathLinked(path, root, p, p.parent) && Linked(s, p, p.parent)
  {
    assert n !in freed;
    p := n.parent;
    if p != null {
      assert p !in freed;
      if at.InRight? {
        assert p.left == null || p.left in Nodes(at.left);
      }
      if p.left == n {
        p.left := null;
      } else {
        p.right := null;
      }
    }
  }

  /** Between two releases: the node to go on from, and where it is in what is left of the tree. */
  ghost predicate Waiting<V>(p: Node?<V>, root: Node?<V>, path: Path<V>, s: Shape<V>)
    reads Nodes(Plug(path, s)), p, Nodes(s), PathNodes(path)
  {
    if p == null then path == Top && s == Empty
    else PathLinked(path, root, p, p.parent) && Linked(s, p, p.parent)
  }

  /** Takes a leaf that has been found out of the tree. */
  method TakeLeaf<V>(n: Node<V>, ghost root: Node?<V>, ghost at: Path<V>, ghost freed: set<Node<V>>)
    returns (p: Node?<V>, ghost path: Path<V>, ghost s: Shape<V>)
    requires PathLinked(at, root, n, n.parent) && Distinct(Plug(at, Fork(Empty, n, Empty))) && LeftsGone(at)
    requires freed !! Nodes(Plug(at, Fork(Empty, n, Empty)))
    modifies Nodes(Plug(at, Fork(Empty, n, Empty)))`left, Nodes(Plug(at, Fork(Empty, n, Empty)))`right
    ensures Waiting(p, root, path, s) && Distinct(Plug(path, s)) && LeftsGone(path)
    ensures n in Nodes(Plug(at, Fork(Empty, n, Empty)))
    ensures Nodes(Plug(path, s)) == Nodes(Plug(at, Fork(Empty, n, Empty))) - {n}
    ensures PostOrder(s) + Pending(path) == Pending(at)
  {
    PlugDistinct(at, Fork(Empty, n, Empty));
    WithoutLeaf(at, n);
    p := Unlink(n, root, at, freed);
    path, s := Without(at).0, Without(at).1;
  }

  /** free: nothing is known of a node's links afterwards. What is left of the tree does not need them. */
  method Release<V>(n: Node<V>, ghost p: Node?<V>, ghost root: Node?<V>, ghost path: Path<V>, ghost s: Shape<V>)
    requires Waiting(p, root, path, s) && Distinct(Plug(path, s)) && n !in Nodes(Plug(path, s))
    modifies n
    ensures Waiting(p, root, path, s)
  {
    PlugDistinct(path, s);
    assert n !in Nodes(s) && n !in PathNodes(path) && (p != null ==> p in Nodes(s));
    n.parent, n.left, n.right := *, *, *;
  }

  /** The body of the loop: a leaf that has been found is taken out, passed on and freed. */
  method FreeLeaf<V>(n: Node<V>, ghost root: Node?<V>, ghost at: Path<V>, ghost freed: set<Node<V>>)
    returns (data: V, p: Node?<V>, ghost path: Path<V>, ghost s: Shape<V>)
    requires PathLinked(at, root, n, n.parent) && Distinct(Plug(at, Fork(Empty, n, Empty))) && LeftsGone(at)
    requires freed !! Nodes(Plug(at, Fork(Empty, n, Empty)))
    modifies Nodes(Plug(at, Fork(Empty, n, Empty)))
    ensures data == n.data
    ensures Waiting(p, root, path, s) && Distinct(Plug(path, s)) && LeftsGone(path)
    ensures n in Nodes(Plug(at, Fork(Empty, n, Empty)))
    ensures Nodes(Plug(path, s)) == Nodes(Plug(at, Fork(Empty, n, Empty))) - {n}
    ensures PostOrder(s) + Pending(path) == Pending(at)
  {
    PlugDistinct(at, Fork(Empty, n, Empty));
    p, path, s := TakeLeaf(n, root, at, freed);
    data := n.data;
    Release(n, p, root, path, s);
  }

  /** What is left of the tree, and what has been freed, in order. */
  ghost predicate Progress<V>(path: Path<V>, s: Shape<V>, freed: set<Node<V>>, order: seq<Node<V>>, shape: Shape<V>) {
    && Distinct(Plug(path, s)) && LeftsGone(path)
    && Nodes(Plug(path, s)) <= Nodes(shape) && freed == Nodes(shape) - Nodes(Plug(path, s))
    && order + (PostOrder(s) + Pending(path)) == PostOrder(shape)
  }

  lemma LeafGone<V>(path: Path<V>, s: Shape<V>, at: Path<V>, n: Node<V>, path': Path<V>, s': Shape<V>,
                    freed: set<Node<V>>, order: seq<Node<V>>, shape: Shape<V>)
    requires Progress(path, s, freed, order, shape)
    requires n in Nodes(Plug(path, s)) && [n] + Pending(at) == PostOrder(s) + Pending(path)
    requires Distinct(Plug(path', s')) && LeftsGone(path') && Nodes(Plug(path', s')) == Nodes(Plug(path, s)) - {n}
    requires PostOrder(s') + Pending(path') == Pending(at)
    ensures Progress(path', s', freed + {n}, order + [n], shape)
    ensures |PostOrder(s') + Pending(path')| < |PostOrder(s) + Pending(path)|
  {
    Shift(order, n, Pending(at));
  }

  /** x_tree_free_with on a tree of the given shape. `out` is what the callback is passed, in
      order; `order` the nodes released, in order. No node is read or written after its release. */
  method FreeWith<V>(root: Node?<V>, ghost shape: Shape<V>, ghost repr: set<Node<V>>)
    returns (out: seq<V>, ghost order: seq<Node<V>>)
    requires Distinct(shape) && Linked(shape, root, null) && repr == Nodes(shape)
    modifies repr
    ensures order == PostOrder(shape)
    ensures |out| == |order| && forall i | 0 <= i < |out| :: out[i] == order[i].data
  {
    out, order := [], [];
    var p := root;
    ghost var path, s, freed: set<Node<V>> := Top, shape, {};
    while true
      invariant Waiting(p, root, path, s) && Progress(path, s, freed, order, shape)
      invariant |out| == |order| && forall i | 0 <= i < |out| :: out[i] == order[i].data
      decreases |PostOrder(s) + Pending(path)|
    {
      PlugDistinct(path, s);
      var n;
      ghost var at;
      n, at := NextLeaf(p, root, path, s, freed);
      if n == null {
        assert order + ([] + []) == order;
        return;
      }
      ghost var was, whole, released: Node<V> := path, s, n;
      var data;
      data, p, path, s := FreeLeaf(n, root, at, freed);
      LeafGone(was, whole, at, released, path, s, freed, order, shape);
      out, order, freed := out + [data], order + [released], freed + {released};
    }
  }
}
