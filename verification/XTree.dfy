/** x_tree_t: the binary search tree with parent pointers. */
module XTree {
  import opened TreeOrder
  import opened TreeShape

  /** ATTACH_LEFT: hang the tree under n in the left slot of p. */
  method AttachLeft<V>(p: Node<V>, n: Node<V>, ghost path: Path<V>, ghost s: Shape<V>, ghost root: Node?<V>)
    requires path.InLeft? && path.node == p && SlotLinked(path, root) && PathDistinct(path)
    requires Rooted(s, n) && PathNodes(path) !! Nodes(s)
    modifies p`left, n`parent
    ensures Linked(Plug(path, s), root, null)
  {
    p.left := n;
    n.parent := p;
    Zip(path, s, root, n, p);
  }

  /** ATTACH_RIGHT: hang the tree under n in the right slot of p. */
  method AttachRight<V>(p: Node<V>, n: Node<V>, ghost path: Path<V>, ghost s: Shape<V>, ghost root: Node?<V>)
    requires path.InRight? && path.node == p && SlotLinked(path, root) && PathDistinct(path)
    requires Rooted(s, n) && PathNodes(path) !! Nodes(s)
    modifies p`right, n`parent
    ensures Linked(Plug(path, s), root, null)
  {
    p.right := n;
    n.parent := p;
    Zip(path, s, root, n, p);
  }

  /** Walk to the rightmost node of l's tree and hang r's tree from it. */
  method HangRight<V>(l: Node<V>, r: Node<V>, ghost ls: Shape<V>, ghost rs: Shape<V>)
    requires Rooted(ls, l) && l.parent == null && Rooted(rs, r) && Nodes(ls) !! Nodes(rs)
    modifies Nodes(ls)`right, r`parent
    ensures Linked(Graft(ls, rs), l, null)
  {
    var lx: Node?<V> := l;
    ghost var path, s := Top, ls;
    while lx.right != null
      invariant lx != null
      invariant PathLinked(path, l, lx, lx.parent) && Linked(s, lx, lx.parent) && s.Fork?
      invariant Plug(path, s) == ls && Plug(path, Graft(s, rs)) == Graft(ls, rs)
      decreases s
    {
      path, s := InRight(path, s.left, lx), s.right;
      lx := lx.right;
    }
    PlugDistinct(path, s);
    AttachRight(lx, r, InRight(path, s.left, lx), rs, l);
  }

  class Tree<!K(!new), !V> {
    const order: Order<K, V>
    var root: Node?<V>
    ghost var shape: Shape<V>
    ghost var repr: set<Node<V>>

    /** The pointers make a tree, in whatever order. */
    ghost predicate Sound()
      reads this, repr
    {
      repr == Nodes(shape) && Distinct(shape) && Linked(shape, root, null)
    }

    /** It is a search tree. */
    ghost predicate Valid()
      reads this, repr
    {
      Sound() && Comparator(order.cmp) && Ordered(shape, order)
    }

    /** The nodes in search order; equal keys in the order of their insertion. */
    ghost function Contents(): seq<Node<V>>
      reads this
    {
      InOrder(shape)
    }

    constructor (order: Order<K, V>)
      requires Comparator(order.cmp)
      ensures Valid() && Contents() == [] && repr == {} && this.order == order
    {
      this.order := order;
      root := null;
      shape, repr := Empty, {};
    }

    /** x_tree_insert, where the comparator is given keys: the new data has this place among them. */
    method Insert(data: V) returns (node: Node<V>)
      requires Valid()
      modifies this, repr
      ensures Valid() && fresh(node) && node.data == data
      ensures Contents() == InsertSorted(old(Contents()), node, order)
      ensures repr == old(repr) + {node}
    {
      node := InsertBy(data, LessThan(order.key(data), order));
      InsertedOrdered(old(shape), node, order);
      InsertRefines(old(shape), node, order);
    }

    /** x_tree_insert; `less` says for which data in the tree the comparator, given the new data and
        these, answers less than zero. */
    method InsertBy(data: V, less: V -> bool) returns (node: Node<V>)
      requires Sound()
      modifies this, repr
      ensures Sound() && fresh(node) && node.data == data && repr == old(repr) + {node}
      ensures shape == Hung(old(shape), node, less)
    {
      node := new Node(data);
      HungNodes(shape, node, less);
      if root == null {
        root := node;
      } else {
        Descend(node, less);
      }
      shape, repr := Hung(shape, node, less), repr + {node};
    }

    /** The walk of _x_tree_insert from a non-empty root. */
    method Descend(node: Node<V>, less: V -> bool)
      requires Sound() && root != null && node !in repr && node.left == null && node.right == null
      modifies repr, node
      ensures Linked(Hung(shape, node, less), root, null)
    {
      var m := root;
      ghost var path, s := Top, shape;
      ghost var leaf := Fork(Empty, node, Empty);
      while true
        invariant m != null && PathLinked(path, root, m, m.parent) && Linked(s, m, m.parent)
        invariant Plug(path, s) == shape && Plug(path, Hung(s, node, less)) == Hung(shape, node, less)
        invariant node.left == null && node.right == null
        decreases s
      {
        PlugDistinct(path, s);
        if less(m.data) {
          path, s := InLeft(path, m, s.right), s.left;
          if m.left == null {
            AttachLeft(m, node, path, leaf, root);
            return;
          }
          m := m.left;
        } else {
          path, s := InRight(path, s.left, m), s.right;
          if m.right == null {
            AttachRight(m, node, path, leaf, root);
            return;
          }
          m := m.right;
        }
      }
    }

    /** _x_tree_find. The ghost results say where in the tree the walk stopped. */
    method Find(k: K) returns (n: Node?<V>, ghost path: Path<V>, ghost sub: Shape<V>)
      requires Sound()
      ensures n == Reached(shape, k, order)
      ensures Plug(path, sub) == shape
      ensures if n == null then sub == Empty
              else sub.Fork? && sub.node == n && PathLinked(path, root, n, n.parent) && Linked(sub, n, n.parent)
      ensures Valid() ==> Ordered(sub, order)
      ensures Valid() ==> var i := FirstEqual(Contents(), k, order);
                          if n == null then i == -1
                          else i == |Before(path) + InOrder(sub.left)| && Contents()[i] == n
    {
      n := root;
      path, sub := Top, shape;
      ghost var up: Node?<V> := null;
      while n != null
        invariant Plug(path, sub) == shape && Leads(path, k, order)
        invariant Reached(sub, k, order) == Reached(shape, k, order)
        invariant PathLinked(path, root, n, up) && Linked(sub, n, up)
        decreases sub
      {
        var ret := order.cmp(k, order.key(n.data));
        if ret == 0 {
          break;
        } else if ret < 0 {
          path, sub, up := InLeft(path, n, sub.right), sub.left, n;
          n := n.left;
        } else {
          path, sub, up := InRight(path, sub.left, n), sub.right, n;
          n := n.right;
        }
      }
      if Valid() {
        StopIsFirst(path, sub, k, order);
      }
    }

    /** x_tree_remove: false when there is no such key. */
    method Remove(k: K) returns (found: bool)
      requires Valid()
      modifies this, repr
      ensures Valid()
      ensures found <==> FirstEqual(old(Contents()), k, order) != -1
      ensures !found ==> shape == old(shape)
      ensures found ==>
                var i := FirstEqual(old(Contents()), k, order);
                && Contents() == RemoveAt(old(Contents()), i)
                && repr == old(repr) - {old(Contents())[i]}
    {
      var node;
      ghost var path, s;
      node, path, s := Find(k);
      if node == null {
        return false;
      }
      RemoveNode(node, path, s);
      return true;
    }

    method RemoveNode(node: Node<V>, ghost path: Path<V>, ghost s: Shape<V>)
      requires Valid() && s.Fork? && s.node == node && Plug(path, s) == shape
      requires PathLinked(path, root, node, node.parent) && Linked(s, node, node.parent)
      modifies this, repr
      ensures Valid() && repr == old(repr) - {node}
      ensures var i := |Before(path) + InOrder(s.left)|;
              && i < |old(Contents())| && old(Contents())[i] == node
              && Contents() == RemoveAt(old(Contents()), i)
    {
      CutKeeps(path, s, order);
      Unhook(node, path, s);
      shape, repr := Plug(path, Graft(s.left, s.right)), repr - {node};
    }

    /** The pointer surgery of x_tree_remove. */
    method Unhook(node: Node<V>, ghost path: Path<V>, ghost s: Shape<V>)
      requires s.Fork? && PathLinked(path, root, node, node.parent) && Linked(s, node, node.parent)
      requires PathDistinct(path) && Distinct(s) && PathNodes(path) !! Nodes(s)
      requires PathNodes(path) + Nodes(s) <= repr
      modifies this`root, repr
      ensures Linked(Plug(path, Graft(s.left, s.right)), root, null)
    {
      var wasLeft := CutAbove(node, path, s);
      CutBelow(node, s);
      Rejoin(node.parent, node.left, node.right, wasLeft, path, s.left, s.right);
    }

    /** x_tree_remove cuts the node off its parent ... */
    method CutAbove(node: Node<V>, ghost path: Path<V>, ghost s: Shape<V>) returns (wasLeft: bool)
      requires PathLinked(path, root, node, node.parent) && Linked(s, node, node.parent)
      requires PathDistinct(path) && PathNodes(path) !! Nodes(s)
      modifies PathNodes(path)`left, PathNodes(path)`right
      ensures SlotLinked(path, root) && Linked(s, node, node.parent) && wasLeft == path.InLeft?
      ensures path.InLeft? ==> path.node.left == null
      ensures path.InRight? ==> path.node.right == null
    {
      wasLeft := false;
      var p := node.parent;
      if p != null {
        if path.InRight? {
          assert p.left == null || p.left in Nodes(path.left);
        }
        if node == p.left {
          wasLeft := true;
          p.left := null;
        } else {
          p.right := null;
        }
      }
    }

    /** ... and off its subtrees. */
    method CutBelow(node: Node<V>, ghost s: Shape<V>)
      requires Linked(s, node, node.parent) && Distinct(s)
      modifies Nodes(s.left)`parent, Nodes(s.right)`parent
      ensures Linked(s.left, node.left, null) && Linked(s.right, node.right, null)
    {
      if node.left != null {
        node.left.parent := null;
      }
      if node.right != null {
        node.right.parent := null;
      }
    }

    /** The eight shape cases of x_tree_remove, after the cut. */
    method Rejoin(p: Node?<V>, l: Node?<V>, r: Node?<V>, wasLeft: bool,
                  ghost path: Path<V>, ghost ls: Shape<V>, ghost rs: Shape<V>)
      requires SlotLinked(path, root) && Linked(ls, l, null) && Linked(rs, r, null)
      requires if p == null then path.Top? else !path.Top? && path.node == p && wasLeft == path.InLeft?
      requires path.InLeft? ==> p.left == null
      requires path.InRight? ==> p.right == null
      requires PathDistinct(path) && Distinct(ls) && Distinct(rs)
      requires Nodes(ls) !! Nodes(rs) && PathNodes(path) !! Nodes(ls) && PathNodes(path) !! Nodes(rs)
      requires PathNodes(path) + Nodes(ls) + Nodes(rs) <= repr
      modifies this`root, PathNodes(path), Nodes(ls), Nodes(rs)
      ensures Linked(Plug(path, Graft(ls, rs)), root, null)
    {
      GraftEmpty(ls);
      if p == null && l == null && r == null {
        root := null;
      } else if p == null && l == null {
        root := r;
      } else if p == null && r == null {
        root := l;
      } else if p != null && l == null && r == null {
        Zip(path, Empty, root, null, p);
      } else if p != null && r == null {
        if wasLeft {
          AttachLeft(p, l, path, ls, root);
        } else {
          AttachRight(p, l, path, ls, root);
        }
      } else if p != null && l == null {
        if wasLeft {
          AttachLeft(p, r, path, rs, root);
        } else {
          AttachRight(p, r, path, rs, root);
        }
      } else {
        JoinBoth(p, l, r, wasLeft, path, ls, rs);
      }
    }

    /** The two cases in which the removed node had both subtrees. */
    method JoinBoth(p: Node?<V>, l: Node<V>, r: Node<V>, wasLeft: bool,
                    ghost path: Path<V>, ghost ls: Shape<V>, ghost rs: Shape<V>)
      requires SlotLinked(path, root) && Linked(ls, l, null) && Linked(rs, r, null)
      requires if p == null then path.Top? else !path.Top? && path.node == p && wasLeft == path.InLeft?
      requires PathDistinct(path) && Distinct(ls) && Distinct(rs)
      requires Nodes(ls) !! Nodes(rs) && PathNodes(path) !! Nodes(ls) && PathNodes(path) !! Nodes(rs)
      requires PathNodes(path) + Nodes(ls) + Nodes(rs) <= repr
      modifies this`root, PathNodes(path), Nodes(ls), Nodes(rs)
      ensures Linked(Plug(path, Graft(ls, rs)), root, null)
    {
      GraftInOrder(ls, rs);
      HangRight(l, r, ls, rs);
      if p == null {
        root := l;
      } else if wasLeft {
        AttachLeft(p, l, path, Graft(ls, rs), root);
      } else {
        AttachRight(p, l, path, Graft(ls, rs), root);
      }
    }
  }
}
