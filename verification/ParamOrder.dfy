/** The order of a parameter list: where each call leaves its entries. */
module ParamOrder {
  import opened Common
  import opened ParamList

  /** An entry that is the first with this name, but for case. */
  predicate FirstAt(l: seq<Entry>, i: nat, name: string)
    requires i < |l|
  {
    Same(l[i].key, name) && forall j | 0 <= j < i :: !Same(l[j].key, name)
  }

  predicate Named(l: seq<Entry>, name: string) {
    exists i :: 0 <= i < |l| && Same(l[i].key, name)
  }

  /** Entries keep their places and the spelling of their names; only the value of the first with this
      name becomes `value`; if there is none, a new entry is the last. */
  ghost predicate Updated(l: seq<Entry>, u: seq<Entry>, key: string, value: Option<string> -> string) {
    && |u| == (if Named(l, key) then |l| else |l| + 1)
    && (forall i | 0 <= i < |l| ::
          u[i] == if FirstAt(l, i, key) then Entry(l[i].key, value(Some(l[i].value))) else l[i])
    && (!Named(l, key) ==> u[|l|] == Entry(key, value(None)))
  }

  lemma FindIsFirst(l: seq<Entry>, key: string)
    ensures var f := Find(l, key, 0);
            && (Named(l, key) <==> f < |l|)
            && forall i | 0 <= i < |l| :: FirstAt(l, i, key) <==> i == f
  {
    var f := Find(l, key, 0);
    forall i | 0 <= i < |l| ensures FirstAt(l, i, key) <==> i == f {
      if f < i {
        assert Same(l[f].key, key);
      }
    }
  }

  lemma AppendUpdates(l: seq<Entry>, key: string, value: string)
    ensures Updated(l, Append(l, key, value), key, (present: Option<string>) => Joined(present, value))
  {
    FindIsFirst(l, key);
  }

  lemma ReplaceUpdates(l: seq<Entry>, key: string, value: string)
    ensures Updated(l, Replace(l, key, value), key, (present: Option<string>) => value)
  {
    FindIsFirst(l, key);
  }

  /** u is l without the entry at f, in the same order. */
  predicate Without(l: seq<Entry>, u: seq<Entry>, f: nat)
    requires f < |l|
  {
    |u| == |l| - 1 && forall i | 0 <= i < |u| :: u[i] == if i < f then l[i] else l[i + 1]
  }

  /** Removal takes out the first entry with this spelling, if there is one, and moves no other. */
  lemma RemoveTakesOut(l: seq<Entry>, key: string)
    ensures (forall i | 0 <= i < |l| :: l[i].key != key) ==> Remove(l, key) == l
    ensures forall f | 0 <= f < |l| && l[f].key == key && (forall i | 0 <= i < f :: l[i].key != key) ::
              Without(l, Remove(l, key), f)
  {
    forall f | 0 <= f < |l| && l[f].key == key && (forall i | 0 <= i < f :: l[i].key != key)
      ensures Without(l, Remove(l, key), f)
    {
      assert FindExact(l, key, 0) == f;
    }
  }

  // ------------------------------------------------------------------ names in order

  function Names(l: seq<Entry>): (names: seq<string>)
    ensures |names| == |l|
  {
    seq(|l|, i requires 0 <= i < |l| => l[i].key)
  }

  predicate Among(names: seq<string>, name: string) {
    exists i :: 0 <= i < |names| && Same(names[i], name)
  }

  /** The names, each as it is spelled first, in the order in which they come first. */
  function Firsts(names: seq<string>): seq<string> {
    if names == [] then []
    else
      var past, name := names[..|names| - 1], names[|names| - 1];
      if Among(past, name) then Firsts(past) else Firsts(past) + [name]
  }

  lemma {:induction false} FirstsHave(names: seq<string>, name: string)
    ensures Among(Firsts(names), name) <==> Among(names, name)
  {
    if names == [] {
    } else {
      var past, last := names[..|names| - 1], names[|names| - 1];
      FirstsHave(past, name);
      FirstsHave(past, last);
      Unsnoc(names);
      AmongSnoc(past, last, name);
      AmongSnoc(Firsts(past), last, name);
      if Among(past, last) && Same(last, name) {
        AmongSame(past, last, name);
      }
    }
  }

  lemma AmongSame(names: seq<string>, a: string, b: string)
    requires Same(a, b)
    ensures Among(names, a) <==> Among(names, b)
  {
  }

  lemma AmongSnoc(names: seq<string>, last: string, name: string)
    ensures Among(names + [last], name) <==> Among(names, name) || Same(last, name)
  {
    var all := names + [last];
    assert all[|names|] == last;
    if i :| 0 <= i < |names| && Same(names[i], name) {
      assert Same(all[i], name);
    }
    if i :| 0 <= i < |all| && Same(all[i], name) {
      assert i < |names| ==> Same(names[i], name);
    }
  }

  lemma NamesAmong(l: seq<Entry>, name: string)
    ensures Among(Names(l), name) <==> Named(l, name)
  {
    if i :| 0 <= i < |l| && Same(l[i].key, name) {
      assert Same(Names(l)[i], name);
    }
    if i :| 0 <= i < |Names(l)| && Same(Names(l)[i], name) {
      assert Same(l[i].key, name);
    }
  }

  /** The names after an append, or a replace. */
  lemma UpdatedNames(l: seq<Entry>, u: seq<Entry>, key: string, value: Option<string> -> string)
    requires Updated(l, u, key, value)
    ensures Names(u) == if Among(Names(l), key) then Names(l) else Names(l) + [key]
  {
    NamesAmong(l, key);
  }

  lemma FirstsSnoc(names: seq<string>, name: string)
    ensures Firsts(names + [name]) == if Among(Firsts(names), name) then Firsts(names) else Firsts(names) + [name]
  {
    assert (names + [name])[..|names|] == names;
    FirstsHave(names, name);
  }

  /** A list that has the names given so far in order has them after one more. */
  lemma UpdatedFirsts(l: seq<Entry>, u: seq<Entry>, key: string, value: Option<string> -> string, given: seq<string>)
    requires Updated(l, u, key, value) && Names(l) == Firsts(given)
    ensures Names(u) == Firsts(given + [key])
  {
    UpdatedNames(l, u, key, value);
    FirstsSnoc(given, key);
  }

  /** Merging into a list brings in the names of the other in the order in which they come first. */
  lemma {:induction false} MergeFirsts(dest: seq<Entry>, src: seq<Entry>, given: seq<string>)
    requires Names(dest) == Firsts(given)
    ensures Names(Merge(dest, src)) == Firsts(given + Names(src))
    decreases |src|
  {
    if src == [] {
      assert given + Names(src) == given;
    } else {
      var e := src[0];
      var value := (present: Option<string>) => Joined(present, e.value);
      AppendUpdates(dest, e.key, e.value);
      UpdatedFirsts(dest, Append(dest, e.key, e.value), e.key, value, given);
      assert Names(src) == [e.key] + Names(src[1..]);
      Assoc(given, [e.key], Names(src[1..]));
      MergeFirsts(Append(dest, e.key, e.value), src[1..], given + [e.key]);
    }
  }

  /** The names that a call gives. */
  function GivenBy(c: Call): seq<string> {
    match c
    case Appending(k, _) => [k]
    case Replacing(k, _) => [k]
    case Merging(src) => Names(src)
    case Removing(_) => []
  }

  function Given(run: seq<Call>): seq<string> {
    if run == [] then [] else Given(run[..|run| - 1]) + GivenBy(run[|run| - 1])
  }

  /** After any run of calls that remove nothing, the names stand in the order in which they were given
      first, each as it was spelled then. */
  lemma {:induction false} RunOrder(run: seq<Call>)
    requires forall i | 0 <= i < |run| :: !run[i].Removing?
    ensures Names(After(run)) == Firsts(Given(run))
  {
    if run == [] {
    } else {
      var past, c := run[..|run| - 1], run[|run| - 1];
      RunOrder(past);
      StepOrder(After(past), c, Given(past));
    }
  }

  lemma StepOrder(l: seq<Entry>, c: Call, given: seq<string>)
    requires !c.Removing? && Names(l) == Firsts(given)
    ensures Names(Apply(l, c)) == Firsts(given + GivenBy(c))
  {
    match c {
      case Appending(k, v) =>
        AppendUpdates(l, k, v);
        UpdatedFirsts(l, Append(l, k, v), k, (present: Option<string>) => Joined(present, v), given);
      case Replacing(k, v) =>
        ReplaceUpdates(l, k, v);
        UpdatedFirsts(l, Replace(l, k, v), k, (present: Option<string>) => v, given);
      case Merging(src) => MergeFirsts(l, src, given);
    }
  }

  // ------------------------------------------------------------------ runs that remove

  /** One call, on names alone: a name that is not among them comes last, and removal takes out the
      first with exactly this spelling. */
  function OnNames(names: seq<string>, c: Call): seq<string> {
    match c
    case Appending(k, _) => WithName(names, k)
    case Replacing(k, _) => WithName(names, k)
    case Merging(src) => WithNames(names, Names(src))
    case Removing(k) => WithoutName(names, k)
  }

  function WithName(names: seq<string>, name: string): seq<string> {
    if Among(names, name) then names else names + [name]
  }

  function WithNames(names: seq<string>, more: seq<string>): seq<string>
    decreases |more|
  {
    if more == [] then names else WithNames(WithName(names, more[0]), more[1..])
  }

  function WithoutName(names: seq<string>, name: string): seq<string> {
    if names == [] then []
    else if names[0] == name then names[1..]
    else [names[0]] + WithoutName(names[1..], name)
  }

  function NamesAfter(run: seq<Call>): seq<string> {
    if run == [] then [] else OnNames(NamesAfter(run[..|run| - 1]), run[|run| - 1])
  }

  lemma {:induction false} MergeNames(dest: seq<Entry>, src: seq<Entry>)
    ensures Names(Merge(dest, src)) == WithNames(Names(dest), Names(src))
    decreases |src|
  {
    if src == [] {
    } else {
      var e := src[0];
      AppendUpdates(dest, e.key, e.value);
      UpdatedNames(dest, Append(dest, e.key, e.value), e.key, (present: Option<string>) => Joined(present, e.value));
      assert Names(src)[1..] == Names(src[1..]);
      MergeNames(Append(dest, e.key, e.value), src[1..]);
    }
  }

  lemma {:induction false} CutNames(names: seq<string>, name: string, f: nat)
    requires f < |names| && names[f] == name && forall i | 0 <= i < f :: names[i] != name
    ensures WithoutName(names, name) == names[..f] + names[f + 1..]
  {
    if f == 0 {
    } else {
      CutNames(names[1..], name, f - 1);
    }
  }

  lemma {:induction false} NothingCut(names: seq<string>, name: string)
    requires forall i | 0 <= i < |names| :: names[i] != name
    ensures WithoutName(names, name) == names
  {
    if names == [] {
    } else {
      NothingCut(names[1..], name);
    }
  }

  lemma RemoveNames(l: seq<Entry>, key: string)
    ensures Names(Remove(l, key)) == WithoutName(Names(l), key)
  {
    var f := FindExact(l, key, 0);
    if f < |l| {
      CutNames(Names(l), key, f);
    } else {
      NothingCut(Names(l), key);
    }
  }

  /** After any run of calls the names stand as the calls have left them, one after the other. */
  lemma {:induction false} RunNames(run: seq<Call>)
    ensures Names(After(run)) == NamesAfter(run)
  {
    if run == [] {
    } else {
      var l, c := After(run[..|run| - 1]), run[|run| - 1];
      RunNames(run[..|run| - 1]);
      match c {
        case Appending(k, v) =>
          AppendUpdates(l, k, v);
          UpdatedNames(l, Append(l, k, v), k, (present: Option<string>) => Joined(present, v));
        case Replacing(k, v) =>
          ReplaceUpdates(l, k, v);
          UpdatedNames(l, Replace(l, k, v), k, (present: Option<string>) => v);
        case Merging(src) => MergeNames(l, src);
        case Removing(k) => RemoveNames(l, k);
      }
    }
  }
}
