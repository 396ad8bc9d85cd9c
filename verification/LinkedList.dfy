/** The doubly linked list of list.c: a list is a pointer to its first node, or null. */
module LinkedList {
  class Node<T> {
    var prev: Node?<T>
    var next: Node?<T>
    const data: T

    /** list_node_new. */
    constructor (data: T)
      ensures prev == null && next == null && this.data == data
    {
      this.data := data;
      prev, next := null, null;
    }
  }

  function At<T>(ns: seq<Node<T>>, i: int): Node?<T> {
    if 0 <= i < |ns| then ns[i] else null
  }

  predicate Distinct<T(==)>(ns: seq<Node<T>>) {
    forall i, j | 0 <= i < j < |ns| :: ns[i] != ns[j]
  }

  /** `list` is the list of these nodes, in this order: prev and next are inverse to each other along
      it, and no node is in it twice. */
  ghost predicate Chain<T>(list: Node?<T>, ns: seq<Node<T>>)
    reads ns
  {
    && list == At(ns, 0) && Distinct(ns)
    && (forall i {:trigger ns[i].prev} | 0 <= i < |ns| :: ns[i].prev == At(ns, i - 1))
    && (forall i {:trigger ns[i].next} | 0 <= i < |ns| :: ns[i].next == At(ns, i + 1))
  }

  function Contents<T>(ns: seq<Node<T>>): seq<T> {
    seq(|ns|, i requires 0 <= i < |ns| => ns[i].data)
  }

  method Tail<T>(list: Node?<T>, ghost ns: seq<Node<T>>) returns (tail: Node?<T>)
    requires Chain(list, ns)
    ensures tail == At(ns, |ns| - 1)
  {
    var l := list;
    ghost var i := 0;
    while l != null
      invariant 0 <= i <= |ns| && l == At(ns, i)
      invariant i == |ns| ==> i == 0
      decreases |ns| - i
    {
      if l.next == null {
        return l;
      }
      l := l.next;
      i := i + 1;
    }
    return null;
  }

  method Prepend<T>(list: Node?<T>, data: T, ghost ns: seq<Node<T>>) returns (l: Node<T>)
    requires Chain(list, ns)
    modifies ns
    ensures fresh(l) && l.data == data && Chain(l, [l] + ns)
  {
    l := new Node(data);
    if list != null {
      l.next := list;
      list.prev := l;
    }
  }

  method Append<T>(list: Node?<T>, data: T, ghost ns: seq<Node<T>>) returns (r: Node<T>, ghost l: Node<T>)
    requires Chain(list, ns)
    modifies ns
    ensures fresh(l) && l.data == data && Chain(r, ns + [l])
  {
    var n := new Node(data);
    l := n;
    if list == null {
      return n, n;
    }
    var last := Tail(list, ns);
    if last != null {
      last.next := n;
    }
    n.prev := last;
    r := list;
  }

  function Inserted<T>(ns: seq<Node<T>>, k: nat, l: Node<T>): (ms: seq<Node<T>>)
    requires k <= |ns|
  {
    ns[..k] + [l] + ns[k..]
  }

  lemma InsertedAt<T>(ns: seq<Node<T>>, k: nat, l: Node<T>)
    requires k <= |ns|
    ensures |Inserted(ns, k, l)| == |ns| + 1
    ensures forall i | 0 <= i <= |ns| ::
              Inserted(ns, k, l)[i] == if i < k then ns[i] else if i == k then l else ns[i - 1]
  {
  }

  /** A node that has been linked in at k, behind the head. */
  lemma ChainInserted<T>(list: Node?<T>, ns: seq<Node<T>>, k: nat, l: Node<T>)
    requires 0 < k <= |ns| && list == ns[0] && Distinct(ns) && l !in ns
    requires l.prev == ns[k - 1] && l.next == At(ns, k)
    requires forall i {:trigger ns[i].prev} | 0 <= i < |ns| :: ns[i].prev == if i == k then l else At(ns, i - 1)
    requires forall i {:trigger ns[i].next} | 0 <= i < |ns| :: ns[i].next == if i == k - 1 then l else At(ns, i + 1)
    ensures Chain(list, Inserted(ns, k, l))
  {
    InsertedAt(ns, k, l);
    var ms := Inserted(ns, k, l);
    DistinctInserted(ns, k, l);
    forall i | 0 <= i < |ms| ensures ms[i].prev == At(ms, i - 1) {
      assert i > 0 ==> ms[i - 1] == if i - 1 < k then ns[i - 1] else if i - 1 == k then l else ns[i - 2];
    }
    forall i | 0 <= i < |ms| ensures ms[i].next == At(ms, i + 1) {
      assert i + 1 < |ms| ==> ms[i + 1] == if i + 1 < k then ns[i + 1] else if i + 1 == k then l else ns[i];
    }
  }

  lemma DistinctInserted<T>(ns: seq<Node<T>>, k: nat, l: Node<T>)
    requires k <= |ns| && Distinct(ns) && l !in ns
    ensures Distinct(Inserted(ns, k, l))
  {
    InsertedAt(ns, k, l);
  }

  lemma HeadInserted<T>(ns: seq<Node<T>>, l: Node<T>)
    ensures Inserted(ns, 0, l) == [l] + ns && Inserted(ns, |ns|, l) == ns + [l]
  {
  }

  /** With no list there is only the new node; with no node the data goes to the end. */
  method AddBefore<T>(list: Node?<T>, data: T, node: Node?<T>, ghost ns: seq<Node<T>>, ghost k: nat)
    returns (r: Node<T>, ghost l: Node<T>)
    requires Chain(list, ns) && k <= |ns| && node == At(ns, k)
    modifies ns
    ensures fresh(l) && l.data == data && Chain(r, Inserted(ns, k, l))
  {
    if list == null {
      r := new Node(data);
      HeadInserted(ns, r);
      return r, r;
    }
    if node == null {
      r, l := Append(list, data, ns);
      HeadInserted(ns, l);
      return r, l;
    }
    if node == list {
      r := Prepend(list, data, ns);
      HeadInserted(ns, r);
      return r, r;
    }
    r := list;
    l := LinkBetween(data, node.prev, node, ns, k);
    ChainInserted(list, ns, k, l);
  }

  /** Puts a new node between two neighbours, of which there may be only the first. */
  method LinkBetween<T>(data: T, p: Node?<T>, n: Node?<T>, ghost ns: seq<Node<T>>, ghost k: nat) returns (l: Node<T>)
    requires 0 < k <= |ns| && Chain(ns[0], ns) && p == ns[k - 1] && n == At(ns, k)
    modifies ns
    ensures fresh(l) && l.data == data && l.prev == p && l.next == n
    ensures forall i {:trigger ns[i].prev} | 0 <= i < |ns| :: ns[i].prev == if i == k then l else At(ns, i - 1)
    ensures forall i {:trigger ns[i].next} | 0 <= i < |ns| :: ns[i].next == if i == k - 1 then l else At(ns, i + 1)
  {
    l := new Node(data);
    l.prev := p;
    l.next := n;
    if p != null {
      p.next := l;
    }
    if n != null {
      n.prev := l;
    }
  }

  /** With no node the data goes to the front. */
  method AddAfter<T>(list: Node?<T>, data: T, node: Node?<T>, ghost ns: seq<Node<T>>, ghost k: nat)
    returns (r: Node<T>, ghost l: Node<T>)
    requires Chain(list, ns) && k <= |ns| && node == At(ns, k - 1)
    modifies ns
    ensures fresh(l) && l.data == data && Chain(r, Inserted(ns, k, l))
  {
    if node == null {
      r := Prepend(list, data, ns);
      HeadInserted(ns, r);
      return r, r;
    }
    r := list;
    l := LinkBetween(data, node, node.next, ns, k);
    ChainInserted(list, ns, k, l);
  }

  /** The first node with this data. */
  method Find<T(==)>(list: Node?<T>, data: T, ghost ns: seq<Node<T>>) returns (node: Node?<T>, ghost k: nat)
    requires Chain(list, ns)
    ensures node != null ==> node.data == data
    ensures k <= |ns| && node == At(ns, k) && forall i | 0 <= i < k :: ns[i].data != data
  {
    node, k := list, 0;
    while node != null
      invariant k <= |ns| && node == At(ns, k)
      invariant forall i | 0 <= i < k :: ns[i].data != data
      decreases |ns| - k
    {
      if node.data == data {
        return;
      }
      node, k := node.next, k + 1;
    }
  }

  function Removed<T>(ns: seq<Node<T>>, k: nat): seq<Node<T>>
    requires k < |ns|
  {
    ns[..k] + ns[k + 1..]
  }

  lemma RemovedAt<T>(ns: seq<Node<T>>, k: nat)
    requires k < |ns|
    ensures |Removed(ns, k)| == |ns| - 1
    ensures forall i | 0 <= i < |ns| - 1 :: Removed(ns, k)[i] == if i < k then ns[i] else ns[i + 1]
  {
  }

  /** The nodes that are left when the neighbours of the one at k have been linked to each other. */
  lemma ChainRemoved<T>(list: Node?<T>, ns: seq<Node<T>>, k: nat)
    requires k < |ns| && Distinct(ns) && list == (if k == 0 then At(ns, 1) else ns[0])
    requires forall i {:trigger ns[i].prev} | 0 <= i < |ns| && i != k ::
               ns[i].prev == At(ns, if i == k + 1 then k - 1 else i - 1)
    requires forall i {:trigger ns[i].next} | 0 <= i < |ns| && i != k ::
               ns[i].next == At(ns, if i == k - 1 then k + 1 else i + 1)
    ensures Chain(list, Removed(ns, k))
  {
    RemovedAt(ns, k);
    DistinctRemoved(ns, k);
    var ms := Removed(ns, k);
    forall i | 0 <= i < |ms| ensures ms[i].prev == At(ms, i - 1) {
      RemovedPrev(ns, k, i);
    }
    forall i | 0 <= i < |ms| ensures ms[i].next == At(ms, i + 1) {
      RemovedNext(ns, k, i);
    }
  }

  lemma DistinctRemoved<T>(ns: seq<Node<T>>, k: nat)
    requires k < |ns| && Distinct(ns)
    ensures Distinct(Removed(ns, k))
  {
    RemovedAt(ns, k);
  }

  /** Where the neighbours of the node at i among the rest were. */
  lemma RemovedPrev<T>(ns: seq<Node<T>>, k: nat, i: nat)
    requires k < |ns| && i < |ns| - 1
    ensures Removed(ns, k)[i] == ns[if i < k then i else i + 1]
    ensures At(Removed(ns, k), i - 1) == At(ns, if i <= k then i - 1 else i)
  {
  }

  lemma RemovedNext<T>(ns: seq<Node<T>>, k: nat, i: nat)
    requires k < |ns| && i < |ns| - 1
    ensures Removed(ns, k)[i] == ns[if i < k then i else i + 1]
    ensures At(Removed(ns, k), i + 1) == At(ns, if i + 1 < k then i + 1 else i + 2)
  {
  }

  /** Takes a node of the list out. */
  method Remove<T>(list: Node?<T>, node: Node?<T>, ghost ns: seq<Node<T>>, ghost k: nat) returns (r: Node?<T>)
    requires Chain(list, ns) && k <= |ns| && node == At(ns, k)
    modifies ns
    ensures Chain(r, if k < |ns| then Removed(ns, k) else ns)
  {
    if node == null {
      return list;
    }
    if node.prev != null {
      node.prev.next := node.next;
    }
    if node.next != null {
      node.next.prev := node.prev;
    }
    r := if node == list then list.next else list;
    ChainRemoved(r, ns, k);
  }

  lemma RemovedInserted<T>(ns: seq<Node<T>>, k: nat, l: Node<T>)
    requires k <= |ns|
    ensures |Inserted(ns, k, l)| == |ns| + 1 && At(Inserted(ns, k, l), k + 1) == At(ns, k)
    ensures forall n | n in Inserted(ns, k, l) :: n in ns || n == l
    ensures Removed(Inserted(ns, k, l), k) == ns
  {
    InsertedAt(ns, k, l);
    RemovedAt(Inserted(ns, k, l), k);
  }

  /** Takes out the node before a node, or the last one, if the node is null. */
  method RemoveBefore<T>(list: Node?<T>, node: Node?<T>, ghost ns: seq<Node<T>>, ghost k: nat) returns (r: Node?<T>)
    requires Chain(list, ns) && k < |ns| && node == At(ns, k + 1)
    modifies ns
    ensures Chain(r, Removed(ns, k))
  {
    var n: Node?<T>;
    if node == null {
      n := Tail(list, ns);
    } else {
      n := node.prev;
    }
    r := Remove(list, n, ns, k);
  }

  /** list_add_before and then list_remove of the new node, which is found by the links: the list has
      its old head and every node its old neighbours. */
  method InsertThenRemove<T>(list: Node?<T>, data: T, node: Node?<T>, ghost ns: seq<Node<T>>, ghost k: nat)
    returns (r: Node?<T>)
    requires Chain(list, ns) && k <= |ns| && node == At(ns, k)
    modifies ns
    ensures r == list && Chain(r, ns)
    ensures forall i | 0 <= i < |ns| :: ns[i].prev == old(ns[i].prev) && ns[i].next == old(ns[i].next)
  {
    ghost var l;
    r, l := AddBefore(list, data, node, ns, k);
    RemovedInserted(ns, k, l);
    r := RemoveBefore(r, node, Inserted(ns, k, l), k);
  }

  lemma ChainJoined<T>(ns: seq<Node<T>>, ms: seq<Node<T>>)
    requires ns != [] && Distinct(ns) && Distinct(ms) && forall n | n in ns :: n !in ms
    requires forall i {:trigger ns[i].prev} | 0 <= i < |ns| :: ns[i].prev == At(ns, i - 1)
    requires forall i {:trigger ns[i].next} | 0 <= i < |ns| ::
               ns[i].next == if i == |ns| - 1 then At(ms, 0) else At(ns, i + 1)
    requires forall i {:trigger ms[i].prev} | 0 <= i < |ms| ::
               ms[i].prev == if i == 0 then ns[|ns| - 1] else At(ms, i - 1)
    requires forall i {:trigger ms[i].next} | 0 <= i < |ms| :: ms[i].next == At(ms, i + 1)
    ensures Chain(ns[0], ns + ms)
  {
    DistinctJoined(ns, ms);
    var all, n := ns + ms, |ns|;
    forall i | 0 <= i < |all| ensures all[i].prev == At(all, i - 1) {
      assert all[i] == if i < n then ns[i] else ms[i - n];
      assert i > 0 ==> all[i - 1] == if i - 1 < n then ns[i - 1] else ms[i - 1 - n];
    }
    forall i | 0 <= i < |all| ensures all[i].next == At(all, i + 1) {
      assert all[i] == if i < n then ns[i] else ms[i - n];
      assert i + 1 < |all| ==> all[i + 1] == if i + 1 < n then ns[i + 1] else ms[i + 1 - n];
    }
  }

  lemma DistinctJoined<T>(ns: seq<Node<T>>, ms: seq<Node<T>>)
    requires Distinct(ns) && Distinct(ms) && forall n | n in ns :: n !in ms
    ensures Distinct(ns + ms)
  {
    var all := ns + ms;
    forall i, j | 0 <= i < j < |all| ensures all[i] != all[j] {
      if i < |ns| <= j {
        assert all[i] in ns && all[j] == ms[j - |ns|];
      }
    }
  }

  /** Two lists without a common node. */
  method Join<T>(l1: Node?<T>, l2: Node?<T>, ghost ns: seq<Node<T>>, ghost ms: seq<Node<T>>) returns (r: Node?<T>)
    requires Chain(l1, ns) && Chain(l2, ms) && forall n | n in ns :: n !in ms
    modifies ns, ms
    ensures Chain(r, ns + ms)
  {
    var tail1 := Tail(l1, ns);
    if tail1 == null {
      assert ns + ms == ms;
      return l2;
    }
    assert tail1 in ns && tail1 !in ms;
    assert l2 != null ==> l2 in ms;
    assert forall i | 0 <= i < |ns| :: ns[i] in ns && ns[i] != l2;
    tail1.next := l2;
    if l2 != null {
      l2.prev := tail1;
    }
    r := l1;
    ChainJoined(ns, ms);
  }

  method Length<T>(list: Node?<T>, ghost ns: seq<Node<T>>) returns (c: nat)
    requires Chain(list, ns)
    ensures c == |ns|
  {
    var l := list;
    c := 0;
    while l != null
      invariant c <= |ns| && l == At(ns, c)
      decreases |ns| - c
    {
      l, c := l.next, c + 1;
    }
  }

  /** free: nothing is known of a freed node's links. */
  method Free<T>(node: Node<T>)
    modifies node
  {
    node.prev, node.next := *, *;
  }

  /** list_free_with, and the data it passes to its callback. The links of a node are read before it
      is freed, as they may be anything afterwards. */
  method FreeWith<T>(list: Node?<T>, ghost ns: seq<Node<T>>) returns (passed: seq<T>, ghost freed: seq<Node<T>>)
    requires Chain(list, ns)
    modifies ns
    ensures passed == Contents(ns) && freed == ns
  {
    passed, freed := [], [];
    var l := list;
    while l != null
      invariant |freed| <= |ns| && freed == ns[..|freed|] && l == At(ns, |freed|)
      invariant passed == Contents(freed)
      invariant forall i | |freed| <= i < |ns| :: ns[i].next == At(ns, i + 1)
      decreases |ns| - |freed|
    {
      var ln := l.next;
      passed := passed + [l.data];
      Free(l);
      freed := freed + [l];
      l := ln;
    }
  }
}
