/** Parameter lists: ordered name/value pairs whose names are compared without case. */
module ParamList {
  import opened CaseFold
  import opened Common

  datatype Entry = Entry(key: string, value: string)

  predicate Same(a: string, b: string) {
    Fold(a) == Fold(b)
  }

  /** Index of the first entry from i on whose key equals this one but for case, or |l|. */
  function Find(l: seq<Entry>, key: string, i: nat): (f: nat)
    requires i <= |l|
    ensures i <= f <= |l|
    ensures f < |l| ==> Same(l[f].key, key)
    ensures forall j | i <= j < f :: !Same(l[j].key, key)
    decreases |l| - i
  {
    if i == |l| || Same(l[i].key, key) then i else Find(l, key, i + 1)
  }

  /** params_get. */
  function Get(l: seq<Entry>, key: string): Option<string> {
    var f := Find(l, key, 0);
    if f < |l| then Some(l[f].value) else None
  }

  /** params_append: a second value for a name is joined to the first with a comma. */
  function Append(l: seq<Entry>, key: string, value: string): seq<Entry> {
    var f := Find(l, key, 0);
    if f < |l| then l[f := l[f].(value := l[f].value + "," + value)] else l + [Entry(key, value)]
  }

  /** params_replace. */
  function Replace(l: seq<Entry>, key: string, value: string): seq<Entry> {
    var f := Find(l, key, 0);
    if f < |l| then l[f := l[f].(value := value)] else l + [Entry(key, value)]
  }

  /** params_merge. */
  function Merge(dest: seq<Entry>, src: seq<Entry>): seq<Entry>
    decreases |src|
  {
    if src == [] then dest else Merge(Append(dest, src[0].key, src[0].value), src[1..])
  }

  /** Index of the first entry from i on with exactly this key, or |l|. */
  function FindExact(l: seq<Entry>, key: string, i: nat): (f: nat)
    requires i <= |l|
    ensures i <= f <= |l|
    ensures f < |l| ==> l[f].key == key
    ensures forall j | i <= j < f :: l[j].key != key
    decreases |l| - i
  {
    if i == |l| || l[i].key == key then i else FindExact(l, key, i + 1)
  }

  /** params_remove, which compares with strcmp. */
  function Remove(l: seq<Entry>, key: string): seq<Entry> {
    var f := FindExact(l, key, 0);
    if f < |l| then l[..f] + l[f + 1..] else l
  }

  // ------------------------------------------------------------------ what one call does to a reading

  /** Keys are pairwise distinct, ignoring case. */
  predicate Unique(l: seq<Entry>) {
    forall i, j | 0 <= i < j < |l| :: !Same(l[i].key, l[j].key)
  }

  /** In a list with distinct keys the reading of a name is its one entry's value. */
  lemma GetAt(l: seq<Entry>, key: string, i: nat)
    requires Unique(l) && i < |l| && Same(l[i].key, key)
    ensures Find(l, key, 0) == i && Get(l, key) == Some(l[i].value)
  {
    var f := Find(l, key, 0);
    assert f <= i;
    assert f < i ==> !Same(l[f].key, l[i].key);
  }

  lemma GetMissing(l: seq<Entry>, key: string)
    requires forall i | 0 <= i < |l| :: !Same(l[i].key, key)
    ensures Find(l, key, 0) == |l| && Get(l, key) == None
  {
  }

  function Joined(present: Option<string>, value: string): string {
    if present.Some? then present.value + "," + value else value
  }

  lemma AppendReads(l: seq<Entry>, key: string, value: string, name: string)
    requires Unique(l)
    ensures Unique(Append(l, key, value))
    ensures Get(Append(l, key, value), name)
         == if Same(key, name) then Some(Joined(Get(l, key), value)) else Get(l, name)
  {
    UpdateReads(l, key, Joined(Get(l, key), value), name);
  }

  lemma ReplaceReads(l: seq<Entry>, key: string, value: string, name: string)
    requires Unique(l)
    ensures Unique(Replace(l, key, value))
    ensures Get(Replace(l, key, value), name) == if Same(key, name) then Some(value) else Get(l, name)
  {
    UpdateReads(l, key, value, name);
  }

  lemma UpdateReads(l: seq<Entry>, key: string, value: string, name: string)
    requires Unique(l)
    ensures var f := Find(l, key, 0);
            var u := if f < |l| then l[f := l[f].(value := value)] else l + [Entry(key, value)];
            Unique(u) && Get(u, name) == if Same(key, name) then Some(value) else Get(l, name)
  {
    var f := Find(l, key, 0);
    var u := if f < |l| then l[f := l[f].(value := value)] else l + [Entry(key, value)];
    assert Unique(u);
    var g := Find(l, name, 0);
    if Same(key, name) {
      GetAt(u, name, f);
    } else if g < |l| {
      GetAt(u, name, g);
    } else {
      GetMissing(u, name);
    }
  }

  lemma CutAt(l: seq<Entry>, f: nat)
    requires Unique(l) && f < |l|
    ensures var u := l[..f] + l[f + 1..];
            Unique(u) && |u| == |l| - 1 && forall i | 0 <= i < |u| :: u[i] == if i < f then l[i] else l[i + 1]
  {
  }

  lemma CutReads(l: seq<Entry>, f: nat, name: string)
    requires Unique(l) && f < |l|
    ensures Get(l[..f] + l[f + 1..], name) == if Same(l[f].key, name) then None else Get(l, name)
  {
    var u := l[..f] + l[f + 1..];
    CutAt(l, f);
    var g := Find(l, name, 0);
    if Same(l[f].key, name) {
      OthersDiffer(l, f, name);
      GetMissing(u, name);
    } else if g < |l| {
      assert g != f;
      GetAt(u, name, if g < f then g else g - 1);
    } else {
      GetMissing(u, name);
    }
  }

  /** Removal takes out the entry whose key is spelled exactly like this, and no other. */
  lemma RemoveReads(l: seq<Entry>, key: string, name: string)
    requires Unique(l)
    ensures Unique(Remove(l, key))
    ensures Get(Remove(l, key), name)
         == if Same(key, name) && FindExact(l, key, 0) < |l| then None else Get(l, name)
  {
    var f := FindExact(l, key, 0);
    if f < |l| {
      CutAt(l, f);
      CutReads(l, f, name);
    }
  }

  lemma OthersDiffer(l: seq<Entry>, f: nat, name: string)
    requires Unique(l) && f < |l| && Same(l[f].key, name)
    ensures forall i | 0 <= i < |l| && i != f :: !Same(l[i].key, name)
  {
    forall i | 0 <= i < |l| && i != f ensures !Same(l[i].key, name) {
      assert if i < f then !Same(l[i].key, l[f].key) else !Same(l[f].key, l[i].key);
    }
  }

  /** The header promises names without case, but remove compares exactly: it takes a name out if
      and only if the name is absent, or stored in the very spelling it is asked for. */
  lemma RemoveExact(l: seq<Entry>, key: string)
    requires Unique(l)
    ensures Get(Remove(l, key), key) == None
            <==> Get(l, key) == None || l[Find(l, key, 0)].key == key
  {
    RemoveReads(l, key, key);
    var f := FindExact(l, key, 0);
    if f < |l| {
      GetAt(l, key, f);
    }
  }

  lemma RemoveMissesOtherCase()
    ensures var l := [Entry("Host", "a")];
            Unique(l) && Get(Remove(l, "host"), "host") == Some("a")
  {
    var l := [Entry("Host", "a")];
    assert Fold("Host") == Fold("host");
    GetAt(l, "host", 0);
    assert FindExact(l, "host", 0) == 1;
  }

  // ------------------------------------------------------------------ runs

  datatype Call =
    | Appending(key: string, value: string)
    | Replacing(key: string, value: string)
    | Merging(src: seq<Entry>)
    | Removing(key: string)

  function Apply(l: seq<Entry>, c: Call): seq<Entry> {
    match c
    case Appending(k, v) => Append(l, k, v)
    case Replacing(k, v) => Replace(l, k, v)
    case Merging(src) => Merge(l, src)
    case Removing(k) => Remove(l, k)
  }

  /** The list after a run of calls on the empty list. */
  function After(run: seq<Call>): seq<Entry> {
    if run == [] then [] else Apply(After(run[..|run| - 1]), run[|run| - 1])
  }

  /** All values given to a name by these entries, after `present`, joined in order. */
  function JoinAll(present: Option<string>, src: seq<Entry>, name: string): Option<string>
    decreases |src|
  {
    if src == [] then present
    else JoinAll(if Same(src[0].key, name) then Some(Joined(present, src[0].value)) else present, src[1..], name)
  }

  lemma {:induction false} MergeReads(dest: seq<Entry>, src: seq<Entry>, name: string)
    requires Unique(dest)
    ensures Unique(Merge(dest, src)) && Get(Merge(dest, src), name) == JoinAll(Get(dest, name), src, name)
    decreases |src|
  {
    if src == [] {
    } else {
      AppendReads(dest, src[0].key, src[0].value, name);
      if Same(src[0].key, name) {
        SameReads(dest, src[0].key, name);
      }
      MergeReads(Append(dest, src[0].key, src[0].value), src[1..], name);
    }
  }

  lemma {:induction false} SameReads(l: seq<Entry>, a: string, b: string)
    requires Same(a, b)
    ensures Get(l, a) == Get(l, b)
  {
    var f, g := Find(l, a, 0), Find(l, b, 0);
    assert f < |l| ==> Same(l[f].key, b);
    assert g < |l| ==> Same(l[g].key, a);
  }

  /** The entries a call appends. */
  function Appends(c: Call): seq<Entry> {
    match c
    case Appending(k, v) => [Entry(k, v)]
    case Merging(src) => src
    case _ => []
  }

  function AllAppends(run: seq<Call>): seq<Entry> {
    if run == [] then [] else AllAppends(run[..|run| - 1]) + Appends(run[|run| - 1])
  }

  /** Whether a call sets or removes a name otherwise than by appending to it. */
  predicate Disturbs(c: Call, name: string) {
    (c.Replacing? || c.Removing?) && Same(c.key, name)
  }

  lemma {:induction false} JoinAllConcat(present: Option<string>, a: seq<Entry>, b: seq<Entry>, name: string)
    ensures JoinAll(present, a + b, name) == JoinAll(JoinAll(present, a, name), b, name)
    decreases |a|
  {
    if a == [] {
      assert a + b == b;
    } else {
      assert (a + b)[1..] == a[1..] + b;
      JoinAllConcat(if Same(a[0].key, name) then Some(Joined(present, a[0].value)) else present, a[1..], b, name);
    }
  }

  lemma StepReads(l: seq<Entry>, c: Call, name: string)
    requires Unique(l)
    ensures Unique(Apply(l, c))
    ensures !Disturbs(c, name) ==> Get(Apply(l, c), name) == JoinAll(Get(l, name), Appends(c), name)
  {
    match c {
      case Appending(k, v) =>
        AppendReads(l, k, v, name);
        if Same(k, name) {
          SameReads(l, k, name);
        }
        assert [Entry(k, v)][1..] == [];
      case Replacing(k, v) => ReplaceReads(l, k, v, name);
      case Merging(src) => MergeReads(l, src, name);
      case Removing(k) => RemoveReads(l, k, name);
    }
  }

  /** Whatever the calls, names stay distinct; and a name that is only ever appended to holds the
      comma-join of all values given to it, in order (section 4.2 of RFC 2616). */
  lemma {:induction false} RunReads(run: seq<Call>, name: string)
    ensures Unique(After(run))
    ensures (forall i | 0 <= i < |run| :: !Disturbs(run[i], name))
            ==> Get(After(run), name) == JoinAll(None, AllAppends(run), name)
  {
    if run == [] {
    } else {
      var n := |run| - 1;
      RunReads(run[..n], name);
      StepReads(After(run[..n]), run[n], name);
      JoinAllConcat(None, AllAppends(run[..n]), Appends(run[n]), name);
    }
  }

  // ------------------------------------------------------------------ the list in memory

  /** A parameter list as its owner holds it. The links of list.c are modelled in LinkedList.dfy. */
  class Params {
    var entries: seq<Entry>

    constructor ()
      ensures entries == []
    {
      entries := [];
    }

    method GetValue(key: string) returns (value: Option<string>)
      ensures value == Get(entries, key)
    {
      var i := 0;
      while i < |entries|
        invariant 0 <= i <= |entries| && Find(entries, key, 0) == Find(entries, key, i)
      {
        if CaseCompareEqual(entries[i].key, key) {
          return Some(entries[i].value);
        }
        i := i + 1;
      }
      return None;
    }

    method AppendValue(key: string, value: string)
      modifies this
      ensures entries == Append(old(entries), key, value)
    {
      var i := 0;
      while i < |entries|
        invariant 0 <= i <= |entries| && entries == old(entries) && Find(entries, key, 0) == Find(entries, key, i)
      {
        if CaseCompareEqual(entries[i].key, key) {
          entries := entries[i := entries[i].(value := entries[i].value + "," + value)];
          return;
        }
        i := i + 1;
      }
      entries := entries + [Entry(key, value)];
    }

    method ReplaceValue(key: string, value: string)
      modifies this
      ensures entries == Replace(old(entries), key, value)
    {
      var i := 0;
      while i < |entries|
        invariant 0 <= i <= |entries| && entries == old(entries) && Find(entries, key, 0) == Find(entries, key, i)
      {
        if CaseCompareEqual(entries[i].key, key) {
          entries := entries[i := entries[i].(value := value)];
          return;
        }
        i := i + 1;
      }
      entries := entries + [Entry(key, value)];
    }

    method MergeFrom(src: seq<Entry>)
      modifies this
      ensures entries == Merge(old(entries), src)
    {
      var i := 0;
      assert src[0..] == src;
      while i < |src|
        invariant 0 <= i <= |src| && Merge(entries, src[i..]) == Merge(old(entries), src)
      {
        assert src[i..][0] == src[i] && src[i..][1..] == src[i + 1..];
        AppendValue(src[i].key, src[i].value);
        i := i + 1;
      }
    }

    method RemoveKey(key: string)
      modifies this
      ensures entries == Remove(old(entries), key)
    {
      var i := 0;
      while i < |entries|
        invariant 0 <= i <= |entries| && entries == old(entries)
        invariant FindExact(entries, key, 0) == FindExact(entries, key, i)
      {
        if entries[i].key == key {
          entries := entries[..i] + entries[i + 1..];
          return;
        }
        i := i + 1;
      }
    }
  }

  predicate CaseCompareEqual(a: string, b: string)
    ensures CaseCompareEqual(a, b) <==> Same(a, b)
  {
    CompareIsFold(a, b);
    CaseCompare(a, b) == 0
  }
}
