/** The tree of one bucket of the dictionary as a value, and what inserting into it needs of the
    comparison that x_tree_insert makes. */
module NameTree {
  import opened CaseFold
  import opened Common

  datatype NameTree = Leaf | Branch(left: NameTree, name: string, value: Option<string>, right: NameTree)

  /** Whether the comparison of a new variable with the one of this name, in x_tree_insert, comes out
      less than zero. dictionary_insert passes the variable where variable_cmp expects a name, so
      strcasecmp is given the bytes of the struct. */
  type Less = string -> bool

  /** With the name of the new variable on the left. */
  function ByName(name: string): Less {
    (m: string) => CaseCompare(name, m) < 0
  }

  /** As written, for a struct whose bytes, up to the first that is 0, are these. */
  function ByBytes(bytes: string): Less {
    (m: string) => CaseCompare(bytes, m) < 0
  }

  /** x_tree_find and x_node_data. */
  function Find(t: NameTree, name: string): Option<Option<string>> {
    match t
    case Leaf => None
    case Branch(l, m, v, r) =>
      var c := CaseCompare(name, m);
      if c == 0 then Some(v) else if c < 0 then Find(l, name) else Find(r, name)
  }

  /** The tree with another value at the node that x_tree_find finds. */
  function Set(t: NameTree, name: string, value: Option<string>): NameTree {
    match t
    case Leaf => Leaf
    case Branch(l, m, v, r) =>
      var c := CaseCompare(name, m);
      if c == 0 then Branch(l, m, value, r)
      else if c < 0 then Branch(Set(l, name, value), m, v, r)
      else Branch(l, m, v, Set(r, name, value))
  }

  /** x_tree_insert of a new variable. */
  function Put(t: NameTree, name: string, value: Option<string>, less: Less): NameTree {
    match t
    case Leaf => Branch(Leaf, name, value, Leaf)
    case Branch(l, m, v, r) =>
      if less(m) then Branch(Put(l, name, value, less), m, v, r)
      else Branch(l, m, v, Put(r, name, value, less))
  }

  /** dictionary_insert in its bucket. */
  function Store(t: NameTree, name: string, value: Option<string>, less: Less): NameTree {
    if Find(t, name) == None then Put(t, Fold(name), value, less) else Set(t, name, value)
  }

  /** The new variable is sent the way on which x_tree_find will look for it. */
  predicate Agrees(t: NameTree, name: string, less: Less) {
    match t
    case Leaf => true
    case Branch(l, m, _, r) =>
      var left := CaseCompare(name, m) < 0;
      less(m) == left && if left then Agrees(l, name, less) else Agrees(r, name, less)
  }

  // ------------------------------------------------------------------ what one insert does

  lemma CompareFolded(a: string, b: string, c: string)
    requires Fold(a) == Fold(b)
    ensures CaseCompare(a, c) < 0 <==> CaseCompare(b, c) < 0
    ensures CaseCompare(a, c) == 0 <==> CaseCompare(b, c) == 0
  {
    CompareIsFold(a, b);
    CompareIsFold(a, c);
    CompareIsFold(b, c);
    CompareOpposite(a, b);
    if CaseCompare(a, c) < 0 {
      CompareTransitive(b, a, c);
    }
    if CaseCompare(b, c) < 0 {
      CompareTransitive(a, b, c);
    }
  }

  lemma {:induction false} FindFolded(t: NameTree, a: string, b: string)
    requires Fold(a) == Fold(b)
    ensures Find(t, a) == Find(t, b)
  {
    match t {
      case Leaf =>
      case Branch(l, m, _, r) =>
        CompareFolded(a, b, m);
        FindFolded(l, a, b);
        FindFolded(r, a, b);
    }
  }

  lemma {:induction false} AgreesFolded(t: NameTree, a: string, b: string, less: Less)
    requires Fold(a) == Fold(b)
    ensures Agrees(t, a, less) <==> Agrees(t, b, less)
  {
    match t {
      case Leaf =>
      case Branch(l, m, _, r) =>
        CompareFolded(a, b, m);
        AgreesFolded(l, a, b, less);
        AgreesFolded(r, a, b, less);
    }
  }

  /** In any tree, setting the value under a name that is found changes its reading and no other. */
  lemma {:induction false} FindSet(t: NameTree, name: string, value: Option<string>, other: string)
    requires Find(t, name) != None
    ensures Find(Set(t, name, value), other) == if Fold(other) == Fold(name) then Some(value) else Find(t, other)
  {
    match t {
      case Leaf => assert false;
      case Branch(l, m, _, r) =>
        CompareIsFold(name, m);
        CompareIsFold(other, m);
        if Fold(other) == Fold(name) {
          CompareFolded(name, other, m);
        }
        if CaseCompare(name, m) < 0 {
          FindSet(l, name, value, other);
        } else if CaseCompare(name, m) > 0 {
          FindSet(r, name, value, other);
        }
    }
  }

  /** In any tree, and whatever the comparisons come to, an insert changes no other reading. */
  lemma {:induction false} FindOther(t: NameTree, name: string, value: Option<string>, less: Less, other: string)
    requires Fold(other) != Fold(name)
    ensures Find(Put(t, name, value, less), other) == Find(t, other)
  {
    match t {
      case Leaf => CompareIsFold(other, name);
      case Branch(l, _, _, r) =>
        FindOther(l, name, value, less, other);
        FindOther(r, name, value, less, other);
    }
  }

  /** The name inserted is found exactly if each comparison on the way agrees with that of the lookup. */
  lemma {:induction false} FindNew(t: NameTree, name: string, value: Option<string>, less: Less)
    requires Find(t, name) == None
    ensures Find(Put(t, name, value, less), name) == if Agrees(t, name, less) then Some(value) else None
  {
    match t {
      case Leaf => CompareIsFold(name, name);
      case Branch(l, m, _, r) =>
        if less(m) == (CaseCompare(name, m) < 0) {
          FindNew(if less(m) then l else r, name, value, less);
        }
    }
  }

  /** A comparison of names always agrees, in any tree. */
  lemma {:induction false} NamesAgree(t: NameTree, name: string)
    ensures Agrees(t, name, ByName(name))
  {
    match t {
      case Leaf =>
      case Branch(l, _, _, r) =>
        NamesAgree(l, name);
        NamesAgree(r, name);
    }
  }

  // ------------------------------------------------------------------ dictionary_insert, in one bucket

  /** What is stored is found, if it was found before, or the comparisons agree. */
  predicate Lands(t: NameTree, name: string, less: Less) {
    Find(t, name) != None || Agrees(t, name, less)
  }

  /** The readings after dictionary_insert. */
  lemma StoreReads(t: NameTree, name: string, value: Option<string>, less: Less, other: string)
    ensures Find(Store(t, name, value, less), other)
         == if Fold(other) != Fold(name) then Find(t, other)
            else if Lands(t, name, less) then Some(value)
            else None
  {
    if Find(t, name) != None {
      FindSet(t, name, value, other);
    } else {
      FoldTwice(name);
      FindFolded(t, name, Fold(name));
      AgreesFolded(t, name, Fold(name), less);
      if Fold(other) != Fold(name) {
        FindOther(t, Fold(name), value, less, other);
      } else {
        FindNew(t, Fold(name), value, less);
        FindFolded(Store(t, name, value, less), other, Fold(name));
      }
    }
  }

  // ------------------------------------------------------------------ for all outcomes

  /** Any outcomes at all, or those that some bytes of the struct can have. */
  datatype Outcomes = Any | Bytes {
    ghost predicate Has(less: Less) {
      Any? || exists bytes: string :: less == ByBytes(bytes)
    }
  }

  /** No outcome sends a new name astray: the bucket is empty, or, as no bytes compare less than an
      empty name, there are only empty names on the way. */
  predicate Safe(t: NameTree, o: Outcomes) {
    t.Leaf? || (o.Bytes? && t.name == "" && Safe(t.right, o))
  }

  /** An outcome that is wrong at the first node where it can be. */
  function Astray(t: NameTree, name: string, o: Outcomes): (less: Less)
    requires !Safe(t, o)
  {
    match o
    case Any => (m: string) => !ByName(name)(m)
    case Bytes =>
      if t.name == "" then Astray(t.right, name, o)
      else ByBytes(if CaseCompare(name, t.name) < 0 then t.name else "")
  }

  lemma EmptyIsLeast(a: string)
    ensures a != "" ==> CaseCompare("", a) < 0 && CaseCompare(a, "") > 0
    ensures CaseCompare(a, "") >= 0
  {
  }

  /** Bytes that compare with one name other than the new name does. */
  lemma BytesAstray(name: string, m: string)
    requires m != "" && CaseCompare(name, m) != 0
    ensures ByBytes(if CaseCompare(name, m) < 0 then m else "")(m) != ByName(name)(m)
  {
    EmptyIsLeast(m);
    CompareIsFold(m, m);
  }

  lemma {:induction false} AstrayMisses(t: NameTree, name: string, o: Outcomes)
    requires Find(t, name) == None && !Safe(t, o)
    ensures o.Has(Astray(t, name, o)) && !Agrees(t, name, Astray(t, name, o))
  {
    if o.Any? {
      assert Astray(t, name, o)(t.name) != ByName(name)(t.name);
    } else if t.name == "" {
      EmptyIsLeast(name);
      AstrayMisses(t.right, name, o);
      var bytes :| Astray(t, name, o) == ByBytes(bytes);
      EmptyIsLeast(bytes);
    } else {
      BytesAstray(name, t.name);
    }
  }

  /** A new name is found, whatever the comparisons come to, exactly if its bucket is safe. */
  lemma FoundForAll(t: NameTree, name: string, value: Option<string>, o: Outcomes)
    requires Find(t, name) == None
    ensures (forall less | o.Has(less) :: Find(Put(t, name, value, less), name) == Some(value)) <==> Safe(t, o)
  {
    if Safe(t, o) {
      forall less | o.Has(less) ensures Find(Put(t, name, value, less), name) == Some(value) {
        SafeAgrees(t, name, less, o);
        FindNew(t, name, value, less);
      }
    } else {
      AstrayMisses(t, name, o);
      FindNew(t, name, value, Astray(t, name, o));
    }
  }

  lemma {:induction false} SafeAgrees(t: NameTree, name: string, less: Less, o: Outcomes)
    requires Find(t, name) == None && Safe(t, o) && o.Has(less)
    ensures Agrees(t, name, less)
  {
    if t.Leaf? {
    } else {
      var bytes :| less == ByBytes(bytes);
      EmptyIsLeast(bytes);
      EmptyIsLeast(name);
      SafeAgrees(t.right, name, less, o);
    }
  }
}
