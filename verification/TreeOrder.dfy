/** Search order: the comparator contract, ordered shapes, and the sorted list that an ordered
    tree stands for. */
module TreeOrder {
  import opened TreeShape

  /** The comparator contract of x_tree.h: the sign of cmp(a, b) orders a and b. Each law is
      named, so that proofs can say where they use it. */
  ghost predicate Comparator<K(!new)>(cmp: (K, K) -> int) {
    && (forall a, b :: Opposite(cmp, a, b))
    && (forall a, b, c :: Transitive(cmp, a, b, c))
  }

  ghost predicate Opposite<K>(cmp: (K, K) -> int, a: K, b: K) {
    cmp(a, b) < 0 <==> cmp(b, a) > 0
  }

  ghost predicate Transitive<K>(cmp: (K, K) -> int, a: K, b: K, c: K) {
    cmp(a, b) <= 0 && cmp(b, c) <= 0 ==> cmp(a, c) <= 0
  }

  /** A strict step on either side makes the whole step strict. */
  lemma Strict<K(!new)>(cmp: (K, K) -> int, a: K, b: K, c: K)
    requires Comparator(cmp)
    ensures cmp(a, b) <= 0 && cmp(b, c) < 0 ==> cmp(a, c) < 0
    ensures cmp(a, b) < 0 && cmp(b, c) <= 0 ==> cmp(a, c) < 0
    ensures cmp(a, b) < 0 <==> cmp(b, a) > 0
    ensures cmp(b, c) < 0 <==> cmp(c, b) > 0
    ensures cmp(a, c) < 0 <==> cmp(c, a) > 0
    ensures cmp(a, b) > 0 <==> cmp(b, a) < 0
    ensures cmp(b, c) > 0 <==> cmp(c, b) < 0
    ensures cmp(a, c) > 0 <==> cmp(c, a) < 0
  {
    assert Opposite(cmp, a, b) && Opposite(cmp, b, a) && Opposite(cmp, b, c) && Opposite(cmp, c, b);
    assert Opposite(cmp, a, c) && Opposite(cmp, c, a);
    assert Transitive(cmp, c, a, b) && Transitive(cmp, b, c, a) && Transitive(cmp, a, b, c);
  }

  /** What a tree sorts by: a key of each data element, and the order of keys. */
  datatype Order<!K, !V> = Order(key: V -> K, cmp: (K, K) -> int) {
    function Compare(k: K, n: Node<V>): int {
      cmp(k, key(n.data))
    }

    function KeyOf(n: Node<V>): K {
      key(n.data)
    }
  }

  ghost predicate Ordered<K, V>(s: Shape<V>, o: Order<K, V>) {
    match s
    case Empty => true
    case Fork(l, n, r) =>
      && Ordered(l, o) && Ordered(r, o)
      && (forall m | m in Nodes(l) :: o.Compare(o.KeyOf(m), n) < 0)
      && (forall m | m in Nodes(r) :: o.Compare(o.KeyOf(m), n) >= 0)
  }

  // ------------------------------------------------------------------ the sorted list

  /** The list with v placed after everything that is not greater. */
  ghost function InsertSorted<K, V>(q: seq<Node<V>>, v: Node<V>, o: Order<K, V>): seq<Node<V>> {
    if q == [] || o.Compare(o.KeyOf(v), q[0]) < 0 then [v] + q
    else [q[0]] + InsertSorted(q[1..], v, o)
  }

  /** Index of the first element with key k, or -1. */
  ghost function FirstEqual<K, V>(q: seq<Node<V>>, k: K, o: Order<K, V>): (i: int)
    ensures -1 <= i < |q|
    ensures i >= 0 ==> o.Compare(k, q[i]) == 0
    ensures forall j | 0 <= j < (if i >= 0 then i else |q|) :: o.Compare(k, q[j]) != 0
  {
    if q == [] then -1
    else if o.Compare(k, q[0]) == 0 then 0
    else
      var i := FirstEqual(q[1..], k, o);
      assert forall j | 1 <= j < |q| :: q[j] == q[1..][j - 1];
      if i == -1 then -1 else i + 1
  }

  ghost function RemoveAt<T>(q: seq<T>, i: nat): seq<T>
    requires i < |q|
  {
    q[..i] + q[i + 1..]
  }

  ghost predicate Sorted<K, V>(q: seq<Node<V>>, o: Order<K, V>) {
    forall i, j | 0 <= i < j < |q| :: o.Compare(o.KeyOf(q[i]), q[j]) <= 0
  }

  /** The in-order sequence of an ordered tree is a sorted list. */
  lemma {:induction false} OrderedIsSorted<K(!new), V>(s: Shape<V>, o: Order<K, V>)
    requires Comparator(o.cmp) && Ordered(s, o)
    ensures Sorted(InOrder(s), o)
  {
    if s.Empty? {
    } else {
      OrderedIsSorted(s.left, o);
      OrderedIsSorted(s.right, o);
      var q, l, r := InOrder(s), InOrder(s.left), InOrder(s.right);
      forall i, j | 0 <= i < j < |q| ensures o.Compare(o.KeyOf(q[i]), q[j]) <= 0 {
        if i <= |l| <= j {
          InOrderNodes(s.left, q[i]);
          InOrderNodes(s.right, q[j]);
          Strict(o.cmp, o.KeyOf(q[i]), o.KeyOf(s.node), o.KeyOf(q[j]));
        } else if j < |l| {
          assert q[i] == l[i] && q[j] == l[j];
        } else {
          assert q[i] == r[i - |l| - 1] && q[j] == r[j - |l| - 1];
        }
      }
    }
  }

  // ------------------------------------------------------------------ insertion

  /** Whether a new element with key k goes to the left of this one. */
  function LessThan<K, V>(k: K, o: Order<K, V>): V -> bool {
    (d: V) => o.cmp(k, o.key(d)) < 0
  }

  ghost function Inserted<K, V>(s: Shape<V>, v: Node<V>, o: Order<K, V>): Shape<V> {
    Hung(s, v, LessThan(o.KeyOf(v), o))
  }

  lemma {:induction false} InsertBefore<K, V>(a: seq<Node<V>>, b: seq<Node<V>>, v: Node<V>, o: Order<K, V>)
    requires b != [] && o.Compare(o.KeyOf(v), b[0]) < 0
    ensures InsertSorted(a + b, v, o) == InsertSorted(a, v, o) + b
  {
    if a == [] {
      assert a + b == b;
    } else {
      InsertBefore(a[1..], b, v, o);
      assert (a + b)[1..] == a[1..] + b;
    }
  }

  lemma {:induction false} InsertAfter<K, V>(a: seq<Node<V>>, b: seq<Node<V>>, v: Node<V>, o: Order<K, V>)
    requires forall i | 0 <= i < |a| :: o.Compare(o.KeyOf(v), a[i]) >= 0
    ensures InsertSorted(a + b, v, o) == a + InsertSorted(b, v, o)
  {
    if a == [] {
      assert a + b == b;
    } else {
      InsertAfter(a[1..], b, v, o);
      assert (a + b)[1..] == a[1..] + b;
    }
  }

  /** Tree insertion keeps the search order. */
  lemma {:induction false} InsertedOrdered<K, V>(s: Shape<V>, v: Node<V>, o: Order<K, V>)
    requires Ordered(s, o) && v !in Nodes(s)
    ensures Ordered(Inserted(s, v, o), o)
  {
    if s.Empty? {
    } else {
      HungNodes(s.left, v, LessThan(o.KeyOf(v), o));
      HungNodes(s.right, v, LessThan(o.KeyOf(v), o));
      InsertedOrdered(s.left, v, o);
      InsertedOrdered(s.right, v, o);
    }
  }

  lemma LeftNotGreater<K(!new), V>(l: Shape<V>, n: Node<V>, v: Node<V>, o: Order<K, V>)
    requires Comparator(o.cmp) && o.Compare(o.KeyOf(v), n) >= 0
    requires forall m | m in Nodes(l) :: o.Compare(o.KeyOf(m), n) < 0
    ensures forall i | 0 <= i < |InOrder(l) + [n]| :: o.Compare(o.KeyOf(v), (InOrder(l) + [n])[i]) >= 0
  {
    forall i | 0 <= i < |InOrder(l)| ensures o.Compare(o.KeyOf(v), InOrder(l)[i]) >= 0 {
      InOrderNodes(l, InOrder(l)[i]);
      Strict(o.cmp, o.KeyOf(InOrder(l)[i]), o.KeyOf(n), o.KeyOf(v));
    }
  }

  /** Tree insertion is insertion into the sorted list. */
  lemma {:induction false} InsertRefines<K(!new), V>(s: Shape<V>, v: Node<V>, o: Order<K, V>)
    requires Comparator(o.cmp) && Ordered(s, o)
    ensures InOrder(Inserted(s, v, o)) == InsertSorted(InOrder(s), v, o)
  {
    if s.Empty? {
    } else {
      var l, n, r := s.left, s.node, s.right;
      if o.Compare(o.KeyOf(v), n) < 0 {
        InsertRefines(l, v, o);
        InsertBefore(InOrder(l), [n] + InOrder(r), v, o);
        assert InOrder(s) == InOrder(l) + ([n] + InOrder(r));
      } else {
        InsertRefines(r, v, o);
        LeftNotGreater(l, n, v, o);
        InsertAfter(InOrder(l) + [n], InOrder(r), v, o);
      }
    }
  }

  // ------------------------------------------------------------------ lookup and removal

  /** The node at which the descent for a key stops, in any tree. */
  ghost function Reached<K, V>(s: Shape<V>, k: K, o: Order<K, V>): Node?<V> {
    match s
    case Empty => null
    case Fork(l, n, r) =>
      var c := o.Compare(k, n);
      if c == 0 then n else if c < 0 then Reached(l, k, o) else Reached(r, k, o)
  }

  /** Everything before the path's hole is below k, everything after it above. */
  ghost predicate Brackets<K, V>(path: Path<V>, k: K, o: Order<K, V>) {
    && (forall i | 0 <= i < |Before(path)| :: o.Compare(k, Before(path)[i]) > 0)
    && (forall i | 0 <= i < |After(path)| :: o.Compare(k, After(path)[i]) < 0)
  }

  lemma BracketsLeft<K(!new), V>(path: Path<V>, n: Node<V>, r: Shape<V>, k: K, o: Order<K, V>)
    requires Comparator(o.cmp) && Brackets(path, k, o) && o.Compare(k, n) < 0
    requires forall m | m in Nodes(r) :: o.Compare(o.KeyOf(m), n) >= 0
    ensures Brackets(InLeft(path, n, r), k, o)
  {
    forall m | m in InOrder(r) ensures o.Compare(k, m) < 0 {
      InOrderNodes(r, m);
      assert o.Compare(o.KeyOf(m), n) >= 0;
      Strict(o.cmp, k, o.KeyOf(n), o.KeyOf(m));
    }
  }

  lemma BracketsRight<K(!new), V>(path: Path<V>, l: Shape<V>, n: Node<V>, k: K, o: Order<K, V>)
    requires Comparator(o.cmp) && Brackets(path, k, o) && o.Compare(k, n) > 0
    requires forall m | m in Nodes(l) :: o.Compare(o.KeyOf(m), n) < 0
    ensures Brackets(InRight(path, l, n), k, o)
  {
    forall m | m in InOrder(l) ensures o.Compare(k, m) > 0 {
      InOrderNodes(l, m);
      assert o.Compare(o.KeyOf(m), n) < 0;
      Strict(o.cmp, o.KeyOf(m), o.KeyOf(n), k);
    }
  }

  /** The descent for k takes this path. */
  ghost predicate Leads<K, V>(path: Path<V>, k: K, o: Order<K, V>) {
    match path
    case Top => true
    case InLeft(up, n, _) => Leads(up, k, o) && o.Compare(k, n) < 0
    case InRight(up, _, n) => Leads(up, k, o) && o.Compare(k, n) > 0
  }

  lemma {:induction false} LeadsBrackets<K(!new), V>(path: Path<V>, s: Shape<V>, k: K, o: Order<K, V>)
    requires Comparator(o.cmp) && Leads(path, k, o) && Ordered(Plug(path, s), o)
    ensures Brackets(path, k, o) && Ordered(s, o)
  {
    match path {
      case Top =>
      case InLeft(up, n, r) =>
        LeadsBrackets(up, Fork(s, n, r), k, o);
        BracketsLeft(up, n, r, k, o);
      case InRight(up, l, n) =>
        LeadsBrackets(up, Fork(l, n, s), k, o);
        BracketsRight(up, l, n, k, o);
    }
  }

  lemma {:induction false} FirstEqualAt<K, V>(a: seq<Node<V>>, n: Node<V>, b: seq<Node<V>>, k: K, o: Order<K, V>)
    requires forall i | 0 <= i < |a| :: o.Compare(k, a[i]) != 0
    requires o.Compare(k, n) == 0
    ensures FirstEqual(a + [n] + b, k, o) == |a|
  {
    var q := a + [n] + b;
    assert q[|a|] == n;
    assert forall i | 0 <= i < |a| :: q[i] == a[i];
  }

  lemma HitBefore<K(!new), V>(path: Path<V>, s: Shape<V>, k: K, o: Order<K, V>)
    requires Comparator(o.cmp) && Brackets(path, k, o) && s.Fork? && Ordered(s, o) && o.Compare(k, s.node) == 0
    ensures var a := Before(path) + InOrder(s.left);
            forall i | 0 <= i < |a| :: o.Compare(k, a[i]) != 0
  {
    forall i | 0 <= i < |InOrder(s.left)| ensures o.Compare(k, InOrder(s.left)[i]) != 0 {
      var m := InOrder(s.left)[i];
      InOrderNodes(s.left, m);
      Strict(o.cmp, o.KeyOf(m), o.KeyOf(s.node), k);
    }
  }

  lemma Regroup<T>(a: seq<T>, b: seq<T>, c: seq<T>, d: seq<T>, e: seq<T>)
    ensures a + (b + c + d) + e == (a + b) + c + (d + e)
    ensures a + (b + d) + e == (a + b) + (d + e)
  {
  }

  lemma CutMiddle<T>(a: seq<T>, x: T, b: seq<T>)
    ensures (a + [x] + b)[|a|] == x && RemoveAt(a + [x] + b, |a|) == a + b
  {
  }

  /** The in-order list around a node, and without it. */
  lemma Around<V>(path: Path<V>, s: Shape<V>)
    requires s.Fork?
    ensures InOrder(Plug(path, s)) == (Before(path) + InOrder(s.left)) + [s.node] + (InOrder(s.right) + After(path))
    ensures InOrder(Plug(path, Graft(s.left, s.right)))
         == (Before(path) + InOrder(s.left)) + (InOrder(s.right) + After(path))
  {
    PlugInOrder(path, s);
    PlugInOrder(path, Graft(s.left, s.right));
    GraftInOrder(s.left, s.right);
    Regroup(Before(path), InOrder(s.left), [s.node], InOrder(s.right), After(path));
  }

  /** A bracketed hit is the first element of the list with that key. */
  lemma HitIsFirst<K(!new), V>(path: Path<V>, s: Shape<V>, k: K, o: Order<K, V>)
    requires Comparator(o.cmp) && Brackets(path, k, o) && s.Fork? && Ordered(s, o) && o.Compare(k, s.node) == 0
    ensures FirstEqual(InOrder(Plug(path, s)), k, o) == |Before(path) + InOrder(s.left)|
  {
    var a, b := Before(path) + InOrder(s.left), InOrder(s.right) + After(path);
    Around(path, s);
    HitBefore(path, s, k, o);
    FirstEqualAt(a, s.node, b, k, o);
  }

  /** Joining the two subtrees of a node in its place removes that node from the list. */
  lemma CutNode<V>(path: Path<V>, s: Shape<V>)
    requires s.Fork?
    ensures var q := InOrder(Plug(path, s));
            var i := |Before(path) + InOrder(s.left)|;
            i < |q| && q[i] == s.node && InOrder(Plug(path, Graft(s.left, s.right))) == RemoveAt(q, i)
  {
    Around(path, s);
    CutMiddle(Before(path) + InOrder(s.left), s.node, InOrder(s.right) + After(path));
  }

  lemma MissIsAbsent<K, V>(path: Path<V>, k: K, o: Order<K, V>)
    requires Brackets(path, k, o)
    ensures FirstEqual(InOrder(Plug(path, Empty)), k, o) == -1
  {
    PlugInOrder(path, Empty);
    var q := Before(path) + After(path);
    assert InOrder(Plug(path, Empty)) == q;
    assert forall i | 0 <= i < |q| :: o.Compare(k, q[i]) != 0;
  }

  /** In a search tree the descent for a key stops at the first element with it, or where it falls
      out of the tree because there is none. */
  lemma StopIsFirst<K(!new), V>(path: Path<V>, s: Shape<V>, k: K, o: Order<K, V>)
    requires Comparator(o.cmp) && Leads(path, k, o) && Ordered(Plug(path, s), o)
    requires s.Fork? ==> o.Compare(k, s.node) == 0
    ensures Ordered(s, o)
    ensures var i := FirstEqual(InOrder(Plug(path, s)), k, o);
            if s.Empty? then i == -1
            else i == |Before(path) + InOrder(s.left)| && InOrder(Plug(path, s))[i] == s.node
  {
    LeadsBrackets(path, s, k, o);
    if s.Empty? {
      MissIsAbsent(path, k, o);
    } else {
      HitIsFirst(path, s, k, o);
      CutNode(path, s);
    }
  }

  lemma {:induction false} GraftOrdered<K(!new), V>(l: Shape<V>, n: Node<V>, r: Shape<V>, o: Order<K, V>)
    requires Comparator(o.cmp) && Ordered(Fork(l, n, r), o)
    ensures Ordered(Graft(l, r), o)
  {
    if l.Empty? {
    } else {
      var a, m, b := l.left, l.node, l.right;
      assert Ordered(Fork(b, n, r), o);
      GraftOrdered(b, n, r, o);
      GraftInOrder(b, r);
      forall x | x in Nodes(Graft(b, r)) ensures o.Compare(o.KeyOf(x), m) >= 0 {
        if x in Nodes(r) {
          assert o.Compare(o.KeyOf(x), n) >= 0 && o.Compare(o.KeyOf(m), n) < 0;
          Strict(o.cmp, o.KeyOf(m), o.KeyOf(n), o.KeyOf(x));
        }
      }
    }
  }

  lemma {:induction false} SubtreeOrdered<K, V>(path: Path<V>, s: Shape<V>, o: Order<K, V>)
    requires Ordered(Plug(path, s), o)
    ensures Ordered(s, o)
  {
    match path {
      case Top =>
      case InLeft(up, n, r) => SubtreeOrdered(up, Fork(s, n, r), o);
      case InRight(up, l, n) => SubtreeOrdered(up, Fork(l, n, s), o);
    }
  }

  /** Replacing a subtree by an ordered tree of some of its nodes keeps the order. */
  lemma {:induction false} ReplaceOrdered<K, V>(path: Path<V>, s: Shape<V>, t: Shape<V>, o: Order<K, V>)
    requires Ordered(Plug(path, s), o) && Ordered(t, o) && Nodes(t) <= Nodes(s)
    ensures Ordered(Plug(path, t), o)
  {
    match path {
      case Top =>
      case InLeft(up, n, r) =>
        SubtreeOrdered(up, Fork(s, n, r), o);
        ReplaceOrdered(up, Fork(s, n, r), Fork(t, n, r), o);
      case InRight(up, l, n) =>
        SubtreeOrdered(up, Fork(l, n, s), o);
        ReplaceOrdered(up, Fork(l, n, s), Fork(l, n, t), o);
    }
  }

  /** What removing the node at a path leaves: the rest of the list, in order, each node once. */
  lemma CutKeeps<K(!new), V>(path: Path<V>, s: Shape<V>, o: Order<K, V>)
    requires Comparator(o.cmp) && s.Fork? && Distinct(Plug(path, s)) && Ordered(Plug(path, s), o)
    ensures PathDistinct(path) && Distinct(s) && PathNodes(path) !! Nodes(s)
    ensures Nodes(Plug(path, s)) == PathNodes(path) + Nodes(s)
    ensures var t := Plug(path, Graft(s.left, s.right));
            Distinct(t) && Ordered(t, o) && Nodes(t) == Nodes(Plug(path, s)) - {s.node}
    ensures var q := InOrder(Plug(path, s));
            var i := |Before(path) + InOrder(s.left)|;
            i < |q| && q[i] == s.node && InOrder(Plug(path, Graft(s.left, s.right))) == RemoveAt(q, i)
  {
    var g := Graft(s.left, s.right);
    PlugDistinct(path, s);
    GraftInOrder(s.left, s.right);
    PlugDistinct(path, g);
    SubtreeOrdered(path, s, o);
    GraftOrdered(s.left, s.node, s.right, o);
    ReplaceOrdered(path, s, g, o);
    CutNode(path, s);
  }
}
