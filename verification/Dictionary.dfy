/** The case-insensitive dictionary of dictionary.c: 16 buckets, each a pointer tree. */
module Dictionary {
  import opened CaseFold
  import opened Common
  import opened JenkinsHash
  import opened NameTable
  import opened NameTree
  import opened TreeOrder
  import opened TreeShape
  import opened Words
  import opened XTree

  class Variable {
    const name: string
    var value: Option<string>

    constructor (name: string, value: Option<string>)
      ensures this.name == name && this.value == value
    {
      this.name := name;
      this.value := value;
    }
  }

  /** variable_cmp, given a name and a variable, as x_tree_find does. */
  function Names(): Order<string, Variable> {
    Order((v: Variable) => v.name, CaseCompare)
  }

  type Bucket = Tree<string, Variable>

  /** The values of the variables that the nodes of a dictionary carry. */
  type Values = map<Variable, Option<string>>

  ghost predicate Carried(s: Shape<Variable>, values: Values) {
    forall n | n in Nodes(s) :: n.data in values
  }

  /** The names and values in a tree. */
  ghost function TreeView(s: Shape<Variable>, values: Values): NameTree
    requires Carried(s, values)
  {
    match s
    case Empty => Leaf
    case Fork(l, n, r) =>
      assert n in Nodes(s);
      Branch(TreeView(l, values), n.data.name, values[n.data], TreeView(r, values))
  }

  lemma {:induction false} ReachedIsFound(s: Shape<Variable>, values: Values, name: string)
    requires Carried(s, values)
    ensures var n := Reached(s, name, Names());
            if n == null then Find(TreeView(s, values), name) == None
            else n in Nodes(s) && Find(TreeView(s, values), name) == Some(values[n.data])
  {
    match s {
      case Empty =>
      case Fork(l, _, r) =>
        ReachedIsFound(l, values, name);
        ReachedIsFound(r, values, name);
    }
  }

  lemma {:induction false} ViewKept(s: Shape<Variable>, values: Values, v: Variable, value: Option<string>)
    requires Carried(s, values) && forall n | n in Nodes(s) :: n.data != v
    ensures TreeView(s, values[v := value]) == TreeView(s, values)
  {
    match s {
      case Empty =>
      case Fork(l, _, r) =>
        ViewKept(l, values, v, value);
        ViewKept(r, values, v, value);
    }
  }

  /** A new leaf for a new variable. */
  lemma {:induction false} HungIsPut(
    s: Shape<Variable>, values: Values, n: Node<Variable>, value: Option<string>, less: Less)
    requires Carried(s, values) && n.data !in values
    ensures Carried(Hung(s, n, ByVariable(less)), values[n.data := value])
    ensures TreeView(Hung(s, n, ByVariable(less)), values[n.data := value])
         == Put(TreeView(s, values), n.data.name, value, less)
  {
    match s {
      case Empty =>
      case Fork(l, m, r) =>
        ViewKept(l, values, n.data, value);
        ViewKept(r, values, n.data, value);
        HungIsPut(l, values, n, value, less);
        HungIsPut(r, values, n, value, less);
    }
  }

  /** The outcome of a comparison with the name of a variable. */
  function ByVariable(less: Less): Variable -> bool {
    (v: Variable) => less(v.name)
  }

  /** No two nodes share a variable. */
  ghost predicate OneEach(nodes: set<Node<Variable>>) {
    forall n, m | n in nodes && m in nodes && n.data == m.data :: n == m
  }

  /** A new value for the variable that is found is a new value at its node. */
  lemma {:induction false} ViewSet(
    s: Shape<Variable>, values: Values, name: string, n: Node<Variable>, value: Option<string>)
    requires Carried(s, values) && Distinct(s) && OneEach(Nodes(s)) && n == Reached(s, name, Names())
    ensures TreeView(s, values[n.data := value]) == Set(TreeView(s, values), name, value)
  {
    match s {
      case Empty => assert false;
      case Fork(l, m, r) =>
        var c := CaseCompare(name, m.data.name);
        ReachedIsFound(if c < 0 then l else r, values, name);
        if c < 0 {
          ViewSet(l, values, name, n, value);
        } else {
          ViewKept(l, values, n.data, value);
        }
        if c > 0 {
          ViewSet(r, values, name, n, value);
        } else {
          ViewKept(r, values, n.data, value);
        }
    }
  }

  // ------------------------------------------------------------------ all buckets

  ghost predicate AllCarried(shapes: seq<Shape<Variable>>, values: Values) {
    |shapes| == BUCKETS && forall i | 0 <= i < BUCKETS :: Carried(shapes[i], values)
  }

  ghost function TableView(shapes: seq<Shape<Variable>>, values: Values): Table
    requires AllCarried(shapes, values)
  {
    seq(BUCKETS, i requires 0 <= i < BUCKETS => TreeView(shapes[i], values))
  }

  /** The trees are distinct, share no node, and no two nodes share a variable. */
  ghost predicate Unshared(shapes: seq<Shape<Variable>>, nodes: set<Node<Variable>>, values: Values) {
    && OneEach(nodes) && (forall n | n in nodes :: n.data in values)
    && (forall i | 0 <= i < |shapes| :: Distinct(shapes[i]) && Nodes(shapes[i]) <= nodes)
    && forall i, j | 0 <= i < j < |shapes| :: Nodes(shapes[i]) !! Nodes(shapes[j])
  }

  lemma UnsharedAfter(shapes: seq<Shape<Variable>>, nodes: set<Node<Variable>>, values: Values,
                      h: nat, n: Node<Variable>, value: Option<string>, less: Less)
    requires Unshared(shapes, nodes, values) && h < |shapes| && n.data !in values
    ensures Unshared(shapes[h := Hung(shapes[h], n, ByVariable(less))], nodes + {n}, values[n.data := value])
  {
    assert n !in nodes;
    HungNodes(shapes[h], n, ByVariable(less));
  }

  lemma TableSet(shapes: seq<Shape<Variable>>, values: Values, nodes: set<Node<Variable>>,
                 h: nat, name: string, n: Node<Variable>, value: Option<string>)
    requires AllCarried(shapes, values) && Unshared(shapes, nodes, values)
    requires h < BUCKETS && n == Reached(shapes[h], name, Names())
    ensures AllCarried(shapes, values[n.data := value])
    ensures TableView(shapes, values[n.data := value])
         == TableView(shapes, values)[h := Set(TableView(shapes, values)[h], name, value)]
  {
    ReachedIsFound(shapes[h], values, name);
    ViewSet(shapes[h], values, name, n, value);
    forall i | 0 <= i < BUCKETS && i != h
      ensures TreeView(shapes[i], values[n.data := value]) == TreeView(shapes[i], values)
    {
      assert Nodes(shapes[i]) !! Nodes(shapes[h]);
      ViewKept(shapes[i], values, n.data, value);
    }
  }

  lemma TablePut(shapes: seq<Shape<Variable>>, values: Values,
                 h: nat, n: Node<Variable>, value: Option<string>, less: Less)
    requires AllCarried(shapes, values) && h < BUCKETS && n.data !in values
    ensures var after := shapes[h := Hung(shapes[h], n, ByVariable(less))];
            && AllCarried(after, values[n.data := value])
            && TableView(after, values[n.data := value])
            == TableView(shapes, values)[h := Put(TableView(shapes, values)[h], n.data.name, value, less)]
  {
    HungIsPut(shapes[h], values, n, value, less);
    forall i | 0 <= i < BUCKETS && i != h
      ensures Carried(shapes[i], values[n.data := value])
      ensures TreeView(shapes[i], values[n.data := value]) == TreeView(shapes[i], values)
    {
      ViewKept(shapes[i], values, n.data, value);
    }
  }

  class Dictionary {
    const buckets: array<Bucket>
    ghost var shapes: seq<Shape<Variable>>
    ghost var nodes: set<Node<Variable>>
    ghost var values: Values
    ghost var contents: map<string, Option<string>>
    ghost var repr: set<object>

    ghost predicate Valid()
      reads this, repr
    {
      Trees() && AllCarried(shapes, values) && Unshared(shapes, nodes, values) && Held()
    }

    /** The buckets are pointer trees of these shapes. */
    ghost predicate Trees()
      reads this, repr
    {
      && this in repr && buckets in repr && buckets.Length == BUCKETS == |shapes|
      && (forall i | 0 <= i < BUCKETS :: buckets[i] in repr && buckets[i].repr <= repr && TreeOk(buckets[i], shapes[i]))
      && (forall i, j | 0 <= i < j < BUCKETS :: buckets[i] != buckets[j])
    }

    ghost static predicate TreeOk(b: Bucket, s: Shape<Variable>)
      reads b, b.repr
    {
      b.Sound() && b.order == Names() && b.shape == s
    }

    /** The variables hold these values. */
    ghost predicate Held()
      reads this, repr
    {
      forall v | v in values :: v in repr && v.value == values[v]
    }

    /** The table of names that the pointers stand for. */
    ghost function View(): Table
      requires AllCarried(shapes, values)
      reads this
    {
      TableView(shapes, values)
    }

    /** All lookups find what is promised. */
    ghost predicate Faithful()
      requires AllCarried(shapes, values)
      reads this
    {
      Right(View(), contents)
    }

    /** The value promised under a name, whatever its case. */
    ghost function Get(name: string): Option<string>
      reads this
    {
      Reading(contents, name)
    }

    /** New trees, all different. */
    static method MakeTable() returns (table: array<Bucket>, ghost made: set<object>)
      ensures fresh(table) && fresh(made) && table.Length == BUCKETS
      ensures forall i | 0 <= i < BUCKETS :: table[i] in made && TreeOk(table[i], Empty)
      ensures forall i, j | 0 <= i < j < BUCKETS :: table[i] != table[j]
    {
      CompareIsComparator();
      var first := new Tree<string, Variable>(Names());
      table := new Bucket[BUCKETS](_ => first);
      made := {};
      for i := 0 to BUCKETS
        invariant fresh(table) && fresh(made) && table !in made
        invariant forall j | 0 <= j < i :: table[j] in made && fresh(table[j]) && TreeOk(table[j], Empty)
        invariant forall j, k | 0 <= j < k < i :: table[j] != table[k]
      {
        var tree := new Tree<string, Variable>(Names());
        table[i] := tree;
        made := made + {tree};
      }
    }

    constructor ()
      ensures Valid() && View() == NO_NAMES && contents == map[] && fresh(repr)
      ensures Faithful()
    {
      var table;
      ghost var made;
      table, made := MakeTable();
      buckets := table;
      contents, values, nodes := map[], map[], {};
      shapes := seq(BUCKETS, i => Empty);
      repr := {this, table} + made;
      new;
      RightExactly([], []);
    }

    method BucketIndex(name: string) returns (h: nat)
      ensures h == BucketOf(Fold(name))
    {
      var s := LowerCopy(name);
      var len := Truncate(|s|);
      var hash := ComputeHash(seq(len, i requires 0 <= i < len => ByteOf(s[i])), 0);
      h := hash % BUCKETS;
    }

    /** The node at which the lookup of a name stops. */
    method FindNode(h: nat, name: string) returns (node: Node?<Variable>)
      requires Valid() && h < BUCKETS
      ensures node == Reached(shapes[h], name, Names())
      ensures if node == null then Find(View()[h], name) == None
              else node.data in repr && Find(View()[h], name) == Some(node.data.value)
    {
      ghost var path, s;
      node, path, s := buckets[h].Find(name);
      ReachedIsFound(shapes[h], values, name);
    }

    /** dictionary_lookup. */
    method Lookup(name: string) returns (value: Option<string>)
      requires Valid()
      ensures value == LookupIn(View(), name)
      ensures Faithful() ==> value == Get(name)
    {
      var h := BucketIndex(name);
      var node := FindNode(h, name);
      if Faithful() {
        RightReads(View(), contents, name);
      }
      if node == null {
        return None;
      }
      return node.data.value;
    }

    /** dictionary_insert; `less` is what the comparisons in x_tree_insert come to. */
    method Insert(name: string, value: Option<string>, less: Less)
      requires Valid()
      modifies repr
      ensures Valid() && fresh(repr - old(repr))
      ensures View() == InsertIn(old(View()), name, value, less)
      ensures contents == old(contents)[Fold(name) := value]
      ensures old(Faithful()) ==> (Faithful() <==> Lands(TreeOf(old(View()), name), name, less))
    {
      InsertFaithful(View(), contents, name, value, less);
      contents := contents[Fold(name) := value];
      var h := BucketIndex(name);
      StoreAt(h, name, value, less);
    }

    static lemma InsertFaithful(
      t: Table, contents: map<string, Option<string>>, name: string, value: Option<string>, less: Less)
      ensures Right(t, contents) ==>
                (Right(InsertIn(t, name, value, less), contents[Fold(name) := value])
            <==> Lands(TreeOf(t, name), name, less))
    {
      if Right(t, contents) {
        InsertExactly(t, contents, name, value, less);
      }
    }

    method StoreAt(h: nat, name: string, value: Option<string>, less: Less)
      requires Valid() && h < BUCKETS
      modifies repr
      ensures Valid() && fresh(repr - old(repr)) && contents == old(contents)
      ensures View() == old(View())[h := Store(old(View())[h], name, value, less)]
    {
      var node := FindNode(h, name);
      if node == null {
        File(h, name, value, less);
      } else {
        SetVariable(h, name, node, value);
      }
    }

    /** Another value for the variable that was found. */
    method SetVariable(h: nat, name: string, node: Node<Variable>, value: Option<string>)
      requires Valid() && h < BUCKETS && node == Reached(shapes[h], name, Names())
      modifies this`values, node.data
      ensures Valid() && View() == old(View())[h := Set(old(View())[h], name, value)]
    {
      ReachedIsFound(shapes[h], values, name);
      TableSet(shapes, values, nodes, h, name, node, value);
      node.data.value := value;
      values := values[node.data := value];
    }

    /** variable_new. */
    static method VariableNew(name: string, value: Option<string>) returns (v: Variable)
      ensures fresh(v) && v.name == Fold(name) && v.value == value
    {
      var key := LowerCopy(name);
      v := new Variable(key, value);
    }

    /** A new variable in its bucket. */
    method File(h: nat, name: string, value: Option<string>, less: Less)
      requires Valid() && h < BUCKETS
      modifies repr
      ensures Valid() && contents == old(contents) && fresh(repr - old(repr))
      ensures View() == old(View())[h := Put(old(View())[h], Fold(name), value, less)]
    {
      var v := VariableNew(name, value);
      var node := InsertInto(h, v, less);
      TablePut(old(shapes), values, h, node, value, less);
      UnsharedAfter(old(shapes), nodes, values, h, node, value, less);
      Account(node);
    }

    /** Takes a new node and its variable into account. */
    ghost method Account(n: Node<Variable>)
      requires Trees() && Held()
      requires var after := values[n.data := n.data.value];
               AllCarried(shapes, after) && Unshared(shapes, nodes + {n}, after)
      modifies this`values, this`nodes, this`repr
      ensures Valid() && repr == old(repr) + {n.data} && values == old(values)[n.data := n.data.value]
    {
      values := values[n.data := n.data.value];
      nodes := nodes + {n};
      repr := repr + {n.data};
    }

    /** Trees other than the one inserted into stay as they are. */
    method InsertInto(h: nat, v: Variable, less: Less) returns (node: Node<Variable>)
      requires Trees() && h < BUCKETS && forall i | 0 <= i < BUCKETS && i != h :: Nodes(shapes[i]) !! Nodes(shapes[h])
      modifies buckets[h], buckets[h].repr, `repr, `shapes
      ensures Trees() && fresh(node) && node.data == v && repr == old(repr) + {node}
      ensures shapes == old(shapes)[h := Hung(old(shapes)[h], node, ByVariable(less))]
    {
      ghost var trees := buckets[..];
      node := buckets[h].InsertBy(v, ByVariable(less));
      forall i | 0 <= i < BUCKETS && i != h ensures TreeOk(trees[i], shapes[i]) {
        ghost var still := TreeOk(trees[i], shapes[i]);
        assert still;
      }
      shapes := shapes[h := Hung(shapes[h], node, ByVariable(less))];
      repr := repr + {node};
    }
  }
}
