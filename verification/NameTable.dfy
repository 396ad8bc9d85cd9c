/** The dictionary as a value: 16 buckets, each a tree of names, and what runs of inserts make of it. */
module NameTable {
  import opened CaseFold
  import opened Common
  import opened JenkinsHash
  import opened NameTree
  import opened Words

  const BUCKETS := 16

  type Table = t: seq<NameTree> | |t| == BUCKETS witness Leaves(BUCKETS)

  function Leaves(n: nat): (ts: seq<NameTree>)
    ensures |ts| == n
  {
    seq(n, i => Leaf)
  }

  const NO_NAMES: Table := Leaves(BUCKETS)

  function ByteOf(c: char): Byte {
    c as int % 256
  }

  /** The bucket of a folded name: the hash sees the length as a word, and four bits of it are kept. */
  function BucketOf(key: string): (h: nat)
    ensures h < BUCKETS
  {
    var len := Truncate(|key|);
    Hash(seq(len, i requires 0 <= i < len => ByteOf(key[i])), 0) % BUCKETS
  }

  /** The tree in which a name is looked for. */
  function TreeOf(t: Table, name: string): NameTree {
    t[BucketOf(Fold(name))]
  }

  /** dictionary_lookup: nothing, if no variable is found or its value is NULL. */
  function LookupIn(t: Table, name: string): Option<string> {
    var found := Find(TreeOf(t, name), name);
    if found == None then None else found.value
  }

  /** dictionary_insert. */
  function InsertIn(t: Table, name: string, value: Option<string>, less: Less): Table {
    t[BucketOf(Fold(name)) := Store(TreeOf(t, name), name, value, less)]
  }

  // ------------------------------------------------------------------ what is promised

  /** What Get reads out of given contents. */
  function Reading(contents: map<string, Option<string>>, name: string): Option<string> {
    if Fold(name) in contents then contents[Fold(name)] else None
  }

  /** A variable is found exactly under the names that the contents have, with their values. */
  ghost predicate Right(t: Table, contents: map<string, Option<string>>) {
    forall name :: RightAt(t, contents, name)
  }

  predicate RightAt(t: Table, contents: map<string, Option<string>>, name: string) {
    Find(TreeOf(t, name), name) == if Fold(name) in contents then Some(contents[Fold(name)]) else None
  }

  lemma RightReads(t: Table, contents: map<string, Option<string>>, name: string)
    requires Right(t, contents)
    ensures LookupIn(t, name) == Reading(contents, name)
  {
    assert RightAt(t, contents, name);
  }

  /** An insert keeps all readings right exactly if what it stores lands where it is looked for. */
  lemma InsertExactly(
    t: Table, contents: map<string, Option<string>>, name: string, value: Option<string>, less: Less)
    requires Right(t, contents)
    ensures Right(InsertIn(t, name, value, less), contents[Fold(name) := value])
       <==> Lands(TreeOf(t, name), name, less)
  {
    var u, after := InsertIn(t, name, value, less), contents[Fold(name) := value];
    forall other
      ensures RightAt(u, after, other) <==> (Fold(other) == Fold(name) ==> Lands(TreeOf(t, name), name, less))
    {
      assert RightAt(t, contents, other);
      StoreReads(TreeOf(t, name), name, value, less, other);
    }
    assert !Lands(TreeOf(t, name), name, less) ==> !RightAt(u, after, name);
  }

  // ------------------------------------------------------------------ runs of inserts

  datatype Entry = Entry(name: string, value: Option<string>)

  /** The contents promised after a run of inserts into a new dictionary. */
  function AfterInserts(run: seq<Entry>): map<string, Option<string>> {
    if run == [] then map[]
    else AfterInserts(run[..|run| - 1])[Fold(run[|run| - 1].name) := run[|run| - 1].value]
  }

  /** The last insert under a name equal to this one but for case, or -1. */
  function LastMatch(run: seq<Entry>, name: string): (i: int)
    ensures -1 <= i < |run|
    ensures i >= 0 ==> CaseCompare(run[i].name, name) == 0
    ensures forall j | i < j < |run| :: CaseCompare(run[j].name, name) != 0
  {
    var n := |run| - 1;
    if n == -1 then -1
    else if CaseCompare(run[n].name, name) == 0 then n
    else
      var i := LastMatch(run[..n], name);
      assert forall j | i < j < n :: run[..n][j] == run[j];
      i
  }

  /** The promise: a lookup yields the value of the last insert under a case-insensitively equal
      name, and nothing when there was none. */
  lemma {:induction false} LookupIsLastInsert(run: seq<Entry>, name: string)
    ensures var i := LastMatch(run, name);
            Reading(AfterInserts(run), name) == if i == -1 then None else run[i].value
  {
    if run == [] {
    } else {
      var n := |run| - 1;
      LookupIsLastInsert(run[..n], name);
      CompareIsFold(run[n].name, name);
    }
  }

  /** The dictionary after a run, with the outcomes of the comparisons of each insert. */
  function TableAfter(run: seq<Entry>, outs: seq<Less>): Table
    requires |run| == |outs|
  {
    if run == [] then NO_NAMES
    else
      var n := |run| - 1;
      InsertIn(TableAfter(run[..n], outs[..n]), run[n].name, run[n].value, outs[n])
  }

  /** Before the run and after each insert of it all lookups are right. */
  ghost predicate RightThroughout(run: seq<Entry>, outs: seq<Less>)
    requires |run| == |outs|
  {
    var n := |run| - 1;
    && Right(TableAfter(run, outs), AfterInserts(run))
    && (run != [] ==> RightThroughout(run[..n], outs[..n]))
  }

  /** Every insert of the run stores where it will be looked for. */
  predicate AllLand(run: seq<Entry>, outs: seq<Less>)
    requires |run| == |outs|
  {
    var n := |run| - 1;
    run == [] ||
    (AllLand(run[..n], outs[..n]) && Lands(TreeOf(TableAfter(run[..n], outs[..n]), run[n].name), run[n].name, outs[n]))
  }

  /** All lookups are right throughout a run exactly if every insert lands. */
  lemma {:induction false} RightExactly(run: seq<Entry>, outs: seq<Less>)
    requires |run| == |outs|
    ensures RightThroughout(run, outs) <==> AllLand(run, outs)
  {
    if run == [] {
      forall name ensures RightAt(TableAfter(run, outs), AfterInserts(run), name) {
      }
    } else {
      var n := |run| - 1;
      RightExactly(run[..n], outs[..n]);
      if RightThroughout(run[..n], outs[..n]) {
        InsertExactly(TableAfter(run[..n], outs[..n]), AfterInserts(run[..n]), run[n].name, run[n].value, outs[n]);
      }
    }
  }

  /** The outcomes when names are compared. */
  function NamesCompared(run: seq<Entry>): (outs: seq<Less>)
    ensures |outs| == |run|
  {
    if run == [] then [] else NamesCompared(run[..|run| - 1]) + [ByName(run[|run| - 1].name)]
  }

  /** Then every insert lands. */
  lemma {:induction false} NamesAreRight(run: seq<Entry>)
    ensures RightThroughout(run, NamesCompared(run))
  {
    NamesLand(run);
    RightExactly(run, NamesCompared(run));
  }

  lemma {:induction false} NamesLand(run: seq<Entry>)
    ensures AllLand(run, NamesCompared(run))
  {
    if run == [] {
    } else {
      var n := |run| - 1;
      NamesLand(run[..n]);
      assert NamesCompared(run)[..n] == NamesCompared(run[..n]);
      NamesAgree(TreeOf(TableAfter(run[..n], NamesCompared(run[..n])), run[n].name), run[n].name);
    }
  }

  // ------------------------------------------------------------------ for all outcomes

  /** A name that is new, in a bucket that has another (when bytes are compared, a non-empty one). */
  ghost predicate Crowds(past: seq<Entry>, name: string, o: Outcomes) {
    && (forall k | 0 <= k < |past| :: Fold(past[k].name) != Fold(name))
    && exists j :: 0 <= j < |past| && Meets(past[j].name, name, o)
  }

  predicate Meets(other: string, name: string, o: Outcomes) {
    BucketOf(Fold(other)) == BucketOf(Fold(name)) && (o.Bytes? ==> other != "")
  }

  /** No insert of the run crowds its bucket. */
  ghost predicate Uncrowded(run: seq<Entry>, o: Outcomes) {
    var n := |run| - 1;
    run == [] || (Uncrowded(run[..n], o) && !Crowds(run[..n], run[n].name, o))
  }

  ghost predicate AllHad(outs: seq<Less>, o: Outcomes) {
    forall i | 0 <= i < |outs| :: o.Has(outs[i])
  }

  lemma {:induction false} KeysAre(run: seq<Entry>, key: string)
    ensures key in AfterInserts(run) <==> exists j :: 0 <= j < |run| && Fold(run[j].name) == key
  {
    if run == [] {
    } else {
      KeysAre(run[..|run| - 1], key);
      assert forall j | 0 <= j < |run| - 1 :: run[..|run| - 1][j] == run[j];
    }
  }

  /** One name, or an empty name and then another. */
  predicate Simple(t: NameTree) {
    t.Leaf? || (t.left.Leaf? && (t.right.Leaf? || (t.name == "" && Single(t.right) && t.right.name != "")))
  }

  predicate Single(t: NameTree) {
    t.Branch? && t.left.Leaf? && t.right.Leaf?
  }

  /** A tree stays simple if it is safe for a new name. */
  lemma StoreSimple(t: NameTree, name: string, value: Option<string>, less: Less, o: Outcomes)
    requires Simple(t) && o.Has(less) && (Find(t, name) == None ==> Safe(t, o))
    ensures Simple(Store(t, name, value, less))
  {
    if t.Branch? && Find(t, name) == None {
      var bytes :| less == ByBytes(bytes);
      EmptyIsLeast(bytes);
      CompareIsFold(name, "");
      assert name != "" && !less(t.name);
      assert Put(t.right, Fold(name), value, less) == Branch(Leaf, Fold(name), value, Leaf);
    } else if t.Branch? {
      assert Set(t.left, name, value) == Leaf;
      assert Single(t.right) ==> Single(Set(t.right, name, value)) && Set(t.right, name, value).name == t.right.name;
    }
  }

  /** In a safe tree no name is found (when bytes are compared, none but an empty one) ... */
  lemma SafeFinds(t: NameTree, o: Outcomes, m: string)
    requires Simple(t) && Safe(t, o) && Find(t, m) != None
    ensures o.Bytes? && m == ""
  {
    EmptyIsLeast(m);
  }

  /** ... and in a simple tree that is not safe there is one. */
  lemma UnsafeFinds(t: NameTree, o: Outcomes) returns (m: string)
    requires Simple(t) && !Safe(t, o)
    ensures Find(t, m) != None && (o.Bytes? ==> m != "")
  {
    m := if t.name == "" && t.right.Branch? then t.right.name else t.name;
    CompareIsFold(m, m);
    EmptyIsLeast(m);
    if m != t.name {
      assert Find(t.right, m) != None;
    }
  }

  /** Only names of this bucket are found in the tree. */
  ghost predicate Homed(t: NameTree, h: nat) {
    forall m: string | Find(t, m) != None :: BucketOf(Fold(m)) == h
  }

  ghost predicate AllSimple(t: Table) {
    forall h | 0 <= h < BUCKETS :: Simple(t[h]) && Homed(t[h], h)
  }

  /** With right lookups and simple trees, a name crowds its bucket exactly if it is not found and
      its tree is not safe. */
  lemma CrowdsExactly(t: Table, past: seq<Entry>, name: string, o: Outcomes)
    requires Right(t, AfterInserts(past)) && AllSimple(t)
    ensures Crowds(past, name, o) <==> Find(TreeOf(t, name), name) == None && !Safe(TreeOf(t, name), o)
  {
    assert RightAt(t, AfterInserts(past), name);
    KeysAre(past, Fold(name));
    MetExactly(t, past, name, o);
  }

  lemma MetExactly(t: Table, past: seq<Entry>, name: string, o: Outcomes)
    requires Right(t, AfterInserts(past)) && AllSimple(t)
    ensures (exists j :: 0 <= j < |past| && Meets(past[j].name, name, o)) <==> !Safe(TreeOf(t, name), o)
  {
    var tree := TreeOf(t, name);
    assert Simple(tree);
    if !Safe(tree, o) {
      var m := UnsafeFinds(tree, o);
      var j := StoredName(t, past, BucketOf(Fold(name)), m);
      assert Meets(past[j].name, name, o);
    }
    forall j | 0 <= j < |past| && Meets(past[j].name, name, o) ensures !Safe(tree, o) {
      KeysAre(past, Fold(past[j].name));
      assert RightAt(t, AfterInserts(past), past[j].name);
      if Safe(tree, o) {
        SafeFinds(tree, o, past[j].name);
      }
    }
  }

  /** A name that is found has been inserted. */
  lemma StoredName(t: Table, past: seq<Entry>, h: nat, m: string) returns (j: nat)
    requires Right(t, AfterInserts(past)) && AllSimple(t) && h < BUCKETS && Find(t[h], m) != None
    ensures j < |past| && Fold(past[j].name) == Fold(m) && BucketOf(Fold(m)) == h
  {
    assert Homed(t[h], h);
    assert RightAt(t, AfterInserts(past), m);
    KeysAre(past, Fold(m));
    j :| 0 <= j < |past| && Fold(past[j].name) == Fold(m);
  }

  lemma InsertSimple(t: Table, name: string, value: Option<string>, less: Less, o: Outcomes)
    requires AllSimple(t) && o.Has(less) && (Find(TreeOf(t, name), name) == None ==> Safe(TreeOf(t, name), o))
    ensures AllSimple(InsertIn(t, name, value, less))
  {
    var tree, h := TreeOf(t, name), BucketOf(Fold(name));
    StoreSimple(tree, name, value, less, o);
    forall m: string | Find(Store(tree, name, value, less), m) != None ensures BucketOf(Fold(m)) == h {
      StoreReads(tree, name, value, less, m);
    }
  }

  lemma {:induction false} UncrowdedIsRight(run: seq<Entry>, outs: seq<Less>, o: Outcomes)
    requires |run| == |outs| && Uncrowded(run, o) && AllHad(outs, o)
    ensures RightThroughout(run, outs) && AllSimple(TableAfter(run, outs))
  {
    if run == [] {
      RightExactly(run, outs);
    } else {
      var n := |run| - 1;
      var t, name := TableAfter(run[..n], outs[..n]), run[n].name;
      UncrowdedIsRight(run[..n], outs[..n], o);
      CrowdsExactly(t, run[..n], name, o);
      if Find(TreeOf(t, name), name) == None {
        SafeAgrees(TreeOf(t, name), name, outs[n], o);
      }
      InsertExactly(t, AfterInserts(run[..n]), name, run[n].value, outs[n]);
      InsertSimple(t, name, run[n].value, outs[n], o);
    }
  }

  /** A run that crowds a bucket has outcomes with which some lookup is wrong. */
  lemma {:induction false} CrowdedIsWrong(run: seq<Entry>, o: Outcomes) returns (outs: seq<Less>)
    requires !Uncrowded(run, o)
    ensures |outs| == |run| && AllHad(outs, o) && !RightThroughout(run, outs)
  {
    var n := |run| - 1;
    if Uncrowded(run[..n], o) {
      outs := SomeOutcomes(n, o);
      var t := TableAfter(run[..n], outs);
      UncrowdedIsRight(run[..n], outs, o);
      CrowdsExactly(t, run[..n], run[n].name, o);
      var tree := TreeOf(t, run[n].name);
      assert Simple(tree);
      AstrayMisses(tree, run[n].name, o);
      InsertExactly(t, AfterInserts(run[..n]), run[n].name, run[n].value, Astray(tree, run[n].name, o));
      outs := outs + [Astray(tree, run[n].name, o)];
    } else {
      outs := CrowdedIsWrong(run[..n], o);
      outs := outs + [ByBytes("")];
    }
    assert outs[..n] + [outs[n]] == outs;
  }

  lemma SomeOutcomes(n: nat, o: Outcomes) returns (outs: seq<Less>)
    ensures |outs| == n && AllHad(outs, o)
  {
    outs := seq(n, i => ByBytes(""));
  }

  /** As the dictionary is written, all lookups are right throughout a run, whatever the comparisons
      come to, exactly if no insert crowds its bucket. */
  lemma RightForAllExactly(run: seq<Entry>, o: Outcomes)
    ensures (forall outs: seq<Less> | |outs| == |run| && AllHad(outs, o) :: RightThroughout(run, outs))
       <==> Uncrowded(run, o)
  {
    if Uncrowded(run, o) {
      forall outs: seq<Less> | |outs| == |run| && AllHad(outs, o) ensures RightThroughout(run, outs) {
        UncrowdedIsRight(run, outs, o);
      }
    } else {
      var outs := CrowdedIsWrong(run, o);
    }
  }

  /** Two names that are equal but for case, or in different buckets. */
  predicate Apart(a: string, b: string) {
    BucketOf(Fold(a)) == BucketOf(Fold(b)) ==> Fold(a) == Fold(b)
  }

  /** No bucket receives two different names. */
  ghost predicate AllApart(run: seq<Entry>) {
    forall i, j | 0 <= i < j < |run| :: Apart(run[i].name, run[j].name)
  }

  lemma AllApartSnoc(past: seq<Entry>, e: Entry)
    ensures AllApart(past + [e]) <==> AllApart(past) && forall j | 0 <= j < |past| :: Apart(past[j].name, e.name)
  {
    var run, n := past + [e], |past|;
    assert forall i | 0 <= i < n :: run[i] == past[i];
    if AllApart(run) {
      forall i, j | 0 <= i < j < n ensures Apart(past[i].name, past[j].name) {
        assert Apart(run[i].name, run[j].name);
      }
      forall j | 0 <= j < n ensures Apart(past[j].name, e.name) {
        assert Apart(run[j].name, run[n].name);
      }
    }
  }

  lemma ApartThrough(a: string, b: string, c: string)
    requires (Apart(a, b) || Apart(b, a)) && !Apart(b, c)
    ensures Fold(a) != Fold(c)
  {
  }

  /** After names that are apart, a name that is not apart from one of them is new. */
  lemma NewcomerIsNew(past: seq<Entry>, name: string, j: nat)
    requires AllApart(past) && j < |past| && !Apart(past[j].name, name)
    ensures Crowds(past, name, Any)
  {
    assert Meets(past[j].name, name, Any);
    forall k | 0 <= k < |past| ensures Fold(past[k].name) != Fold(name) {
      ApartThrough(past[k].name, past[j].name, name);
    }
  }

  lemma NewcomerCrowds(past: seq<Entry>, e: Entry)
    requires AllApart(past)
    ensures AllApart(past + [e]) <==> !Crowds(past, e.name, Any)
  {
    AllApartSnoc(past, e);
    if j :| 0 <= j < |past| && !Apart(past[j].name, e.name) {
      NewcomerIsNew(past, e.name, j);
    }
  }

  /** If the comparisons may come to anything at all, the condition is that no bucket receives two
      different names. */
  lemma {:induction false} UncrowdedByAny(run: seq<Entry>)
    ensures Uncrowded(run, Any) <==> AllApart(run)
  {
    if run == [] {
    } else {
      var past, e := run[..|run| - 1], run[|run| - 1];
      UncrowdedByAny(past);
      Unsnoc(run);
      AllApartSnoc(past, e);
      if AllApart(past) {
        NewcomerCrowds(past, e);
      }
    }
  }

  // ------------------------------------------------------------------ two names of one bucket

  lemma TableSnoc(run: seq<Entry>, outs: seq<Less>, e: Entry, x: Less)
    requires |run| == |outs|
    ensures TableAfter(run + [e], outs + [x]) == InsertIn(TableAfter(run, outs), e.name, e.value, x)
  {
    assert (run + [e])[..|run|] == run && (outs + [x])[..|outs|] == outs;
  }

  lemma TableOfTwo(d: Entry, e: Entry, x: Less, y: Less)
    ensures TableAfter([d, e], [x, y]) == InsertIn(InsertIn(NO_NAMES, d.name, d.value, x), e.name, e.value, y)
  {
    TableSnoc([], [], d, x);
    TableSnoc([d], [x], e, y);
    assert [] + [d] == [d] && [] + [x] == [x] && [d] + [e] == [d, e] && [x] + [y] == [x, y];
  }

  /** Of two names that come to one bucket the first is found and the second may not be. */
  lemma SecondIsMissed(d: Entry, e: Entry, x: Less) returns (bytes: string)
    requires d.name != "" && !Apart(d.name, e.name)
    ensures var t := TableAfter([d, e], [x, ByBytes(bytes)]);
            LookupIn(t, d.name) == d.value && LookupIn(t, e.name) == None
  {
    var t1 := InsertIn(NO_NAMES, d.name, d.value, x);
    bytes := StoreAstray(d.name, e.name, d.value, e.value);
    assert TreeOf(t1, e.name) == Branch(Leaf, Fold(d.name), d.value, Leaf) by {
      assert TreeOf(NO_NAMES, d.name) == Leaf;
    }
    TableOfTwo(d, e, x, ByBytes(bytes));
  }

  lemma StoreAstray(a: string, b: string, v: Option<string>, w: Option<string>) returns (bytes: string)
    requires a != "" && Fold(a) != Fold(b)
    ensures var tree := Store(Branch(Leaf, Fold(a), v, Leaf), b, w, ByBytes(bytes));
            Find(tree, a) == Some(v) && Find(tree, b) == None
  {
    bytes := if CaseCompare(b, Fold(a)) < 0 then Fold(a) else "";
    var tree := Branch(Leaf, Fold(a), v, Leaf);
    FoldTwice(a);
    CompareIsFold(a, Fold(a));
    CompareIsFold(b, Fold(a));
    BytesAstray(b, Fold(a));
    assert ByBytes(bytes)(Fold(a)) != ByName(b)(Fold(a));
    assert Find(tree, b) == None;
    StoreReads(tree, b, w, ByBytes(bytes), a);
    StoreReads(tree, b, w, ByBytes(bytes), b);
  }

  lemma {:induction false} Pigeonhole(holes: seq<nat>, n: nat) returns (i: nat, j: nat)
    requires |holes| > n && forall k | 0 <= k < |holes| :: holes[k] < n
    ensures i < j < |holes| && holes[i] == holes[j]
    decreases n
  {
    var last := |holes| - 1;
    if k :| 0 <= k < last && holes[k] == holes[last] {
      i, j := k, last;
    } else {
      var rest := seq(last, k requires 0 <= k < last => if holes[k] == n - 1 then holes[last] else holes[k]);
      i, j := Pigeonhole(rest, n - 1);
    }
  }

  /** The names a, b, c, ... */
  function Letter(k: nat): (s: string)
    requires k <= BUCKETS
    ensures |s| == 1 && s[0] == 'a' + k as char && Fold(s) == s
  {
    ['a' + k as char]
  }

  /** Of 17 names two share a bucket. */
  lemma TwoShare() returns (a: string, b: string)
    ensures |a| == |b| == 1 && !Apart(a, b)
  {
    var holes := seq(BUCKETS + 1, k requires 0 <= k <= BUCKETS => BucketOf(Letter(k)));
    var i, j := Pigeonhole(holes, BUCKETS);
    a, b := Letter(i), Letter(j);
  }

  /** So there are two inserts after which the lookup of the second name yields nothing. */
  lemma WrittenInsertMisses(v: string, w: string) returns (d: Entry, e: Entry, bytes: string)
    ensures d.value == Some(v) && e.value == Some(w) && Fold(d.name) != Fold(e.name)
    ensures var t := TableAfter([d, e], [ByBytes(""), ByBytes(bytes)]);
            LookupIn(t, d.name) == Some(v) && LookupIn(t, e.name) == None
  {
    var a, b := TwoShare();
    d, e := Entry(a, Some(v)), Entry(b, Some(w));
    bytes := SecondIsMissed(d, e, ByBytes(""));
  }
}
