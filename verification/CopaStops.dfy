/** When a callback asks for the parse to stop, and what becomes of that. */
module CopaStops {
  import opened CfgRead
  import opened Common
  import opened CopaFile
  import opened CopaLines
  import opened CopaParse
  import opened CopaParser
  import opened CopaScanner
  import opened CopaText

  /** The tags among the lines: is each an end tag? */
  function Tags(ls: seq<Line>): seq<bool> {
    if ls == [] then []
    else Tags(ls[..|ls| - 1]) + match ls[|ls| - 1] {
                                  case Starting(_) => [false]
                                  case Ending(_) => [true]
                                  case _ => []
                                }
  }

  /** The last tag is of the kind of the one before it; a first tag, as if an end tag came before. */
  predicate Repeats(tags: seq<bool>) {
    tags != [] && tags[|tags| - 1] == if |tags| == 1 then true else tags[|tags| - 2]
  }

  /** Start tags and end tags in turn, a start tag first. */
  predicate Alternate(tags: seq<bool>) {
    forall i | 0 <= i < |tags| :: tags[i] == (i % 2 == 1)
  }

  lemma TagsSnoc(ls: seq<Line>, l: Line)
    ensures Tags(ls + [l])
         == Tags(ls) + match l { case Starting(_) => [false] case Ending(_) => [true] case _ => [] }
  {
    assert (ls + [l])[..|ls|] == ls;
  }

  lemma PerformSnoc(o: Outcome, ls: seq<Line>, l: Line)
    ensures PerformAll(o, ls + [l]) == Perform(PerformAll(o, ls), l)
  {
    PerformConcat(o, ls, [l]);
    assert [l][1..] == [];
  }

  /** How a status and an open block go with the tags so far. */
  predicate Fits(o: Outcome, tags: seq<bool>) {
    && (o.config.block.Some? <==> tags != [] && !tags[|tags| - 1])
    && o.status == if Repeats(tags) then StopErr else Ok
  }

  lemma FitsNext(o: Outcome, tags: seq<bool>, l: Line)
    requires Fits(o, tags)
    ensures l.Starting? ==> Fits(Perform(o, l), tags + [false])
    ensures l.Ending? ==> Fits(Perform(o, l), tags + [true])
    ensures !l.Starting? && !l.Ending? ==> Fits(Perform(o, l), tags)
  {
  }

  /** A block is open after a start tag, whatever came before, and none after an end tag. So the
      status is a stop exactly after a tag that repeats the kind of the one before it: it does not
      stay one when another kind follows. */
  lemma {:induction false} StatusExactly(ls: seq<Line>)
    ensures var o, tags := PerformAll(BEGIN, ls), Tags(ls);
            && (o.config.block.Some? <==> tags != [] && !tags[|tags| - 1])
            && o.status == if Repeats(tags) then StopErr else Ok
  {
    if ls == [] {
    } else {
      var past, l := ls[..|ls| - 1], ls[|ls| - 1];
      StatusExactly(past);
      Unsnoc(ls);
      TagsSnoc(past, l);
      PerformSnoc(BEGIN, past, l);
      FitsNext(PerformAll(BEGIN, past), Tags(past), l);
      assert Tags(past) + [] == Tags(past);
    }
  }

  /** The lines that take effect: start tags after which no block is opened twice, end tags of open
      blocks, and settings while no stop has been asked for. */
  function Effective(ls: seq<Line>): seq<Line> {
    if ls == [] then []
    else
      var past, l := ls[..|ls| - 1], ls[|ls| - 1];
      if Takes(Tags(past), l) then Effective(past) + [l] else Effective(past)
  }

  predicate Takes(tags: seq<bool>, l: Line) {
    var open := tags != [] && !tags[|tags| - 1];
    match l
    case Assigning(_) => !Repeats(tags)
    case Starting(_) => !open
    case Ending(_) => open
    case _ => false
  }

  lemma TakesEffect(o: Outcome, e: Outcome, tags: seq<bool>, l: Line)
    requires o.config == e.config && e.status == Ok && o.status == (if Repeats(tags) then StopErr else Ok)
    requires o.config.block.Some? <==> tags != [] && !tags[|tags| - 1]
    ensures Perform(o, l).config == (if Takes(tags, l) then Perform(e, l).config else e.config)
    ensures Takes(tags, l) ==> Perform(e, l).status == Ok
  {
  }

  /** The configuration is that of the lines that take effect, among which no tag asks for a stop: a
      tag that does leaves the open block and its settings, and everything else, as they are. */
  lemma {:induction false} OnlyEffectiveCount(ls: seq<Line>)
    ensures PerformAll(BEGIN, ls).config == PerformAll(BEGIN, Effective(ls)).config
    ensures PerformAll(BEGIN, Effective(ls)).status == Ok
  {
    if ls == [] {
    } else {
      var past, l := ls[..|ls| - 1], ls[|ls| - 1];
      OnlyEffectiveCount(past);
      StatusExactly(past);
      Unsnoc(ls);
      PerformSnoc(BEGIN, past, l);
      PerformSnoc(BEGIN, Effective(past), l);
      TakesEffect(PerformAll(BEGIN, past), PerformAll(BEGIN, Effective(past)), Tags(past), l);
    }
  }

  lemma {:induction false} TagsPrefix(ls: seq<Line>, n: nat)
    requires n <= |ls|
    ensures |Tags(ls[..n])| <= |Tags(ls)| && Tags(ls[..n]) == Tags(ls)[..|Tags(ls[..n])|]
  {
    if n == |ls| {
      assert ls[..n] == ls;
    } else {
      assert ls[..|ls| - 1][..n] == ls[..n];
      TagsPrefix(ls[..|ls| - 1], n);
    }
  }

  /** Every tag is the last of those up to some line. */
  lemma {:induction false} TagLineOf(ls: seq<Line>, i: nat) returns (n: nat)
    requires i < |Tags(ls)|
    ensures n <= |ls| && |Tags(ls[..n])| == i + 1
  {
    if |Tags(ls[..|ls| - 1])| == i {
      n := |ls|;
      assert ls[..n] == ls;
    } else {
      n := TagLineOf(ls[..|ls| - 1], i);
      assert ls[..|ls| - 1][..n] == ls[..n];
    }
  }

  lemma {:induction false} AlternateFrom(tags: seq<bool>)
    ensures Alternate(tags) <==> forall n | 0 <= n <= |tags| :: !Repeats(tags[..n])
  {
    if tags == [] {
    } else {
      var m := |tags| - 1;
      var past := tags[..m];
      AlternateFrom(past);
      assert forall n | 0 <= n <= m :: past[..n] == tags[..n];
      assert tags[..m + 1] == tags;
      assert Alternate(past) && m > 0 ==> past[m - 1] == ((m - 1) % 2 == 1);
      assert forall i | 0 <= i < m :: past[i] == tags[i];
    }
  }

  /** No callback ever asks for a stop, exactly if the tags alternate, a start tag first. */
  lemma NoStopExactly(ls: seq<Line>)
    ensures (forall n | 0 <= n <= |ls| :: PerformAll(BEGIN, ls[..n]).status == Ok) <==> Alternate(Tags(ls))
  {
    var tags := Tags(ls);
    AlternateFrom(tags);
    forall n | 0 <= n <= |ls| ensures PerformAll(BEGIN, ls[..n]).status == Ok <==> !Repeats(Tags(ls[..n])) {
      StatusExactly(ls[..n]);
    }
    if Alternate(tags) {
      forall n | 0 <= n <= |ls| ensures !Repeats(Tags(ls[..n])) {
        TagsPrefix(ls, n);
      }
    } else {
      var k :| 0 <= k <= |tags| && Repeats(tags[..k]);
      var n := TagLineOf(ls, k - 1);
      TagsPrefix(ls, n);
      assert Tags(ls[..n]) == tags[..k];
    }
  }

  // ------------------------------------------------------------------ the parse goes on

  /** How many lines are read up to the first stop, with the line that causes it; all, if none does. */
  function FirstStop(o: Outcome, ls: seq<Line>): (n: nat)
    ensures n <= |ls|
    ensures n < |ls| ==> PerformAll(o, ls[..n]).status != Ok
    decreases |ls|
  {
    if o.status != Ok || ls == [] then 0
    else
      var n := FirstStop(Perform(o, ls[0]), ls[1..]);
      assert ls[..n + 1][1..] == ls[1..][..n];
      n + 1
  }

  lemma {:induction false} FirstStopIsFirst(o: Outcome, ls: seq<Line>, m: nat)
    requires m < FirstStop(o, ls)
    ensures PerformAll(o, ls[..m]).status == Ok
    decreases m
  {
    if m == 0 {
    } else {
      assert ls[..m][1..] == ls[1..][..m - 1];
      FirstStopIsFirst(Perform(o, ls[0]), ls[1..], m - 1);
    }
  }

  lemma NoneBeforeFirst(ls: seq<Line>)
    ensures forall m | 0 <= m < FirstStop(BEGIN, ls) :: PerformAll(BEGIN, ls[..m]).status == Ok
  {
    forall m | 0 <= m < FirstStop(BEGIN, ls) ensures PerformAll(BEGIN, ls[..m]).status == Ok {
      FirstStopIsFirst(BEGIN, ls, m);
    }
  }

  /** Once stopped, the parse still reports every tag, and assignments again after one that is in turn. */
  lemma {:induction false} EventsGrow(o: Outcome, ls: seq<Line>)
    ensures |PerformAll(o, ls).events| >= |o.events| + |Tags(ls)|
    ensures o.status != Ok && Tags(ls) == [] ==> PerformAll(o, ls) == o
  {
    if ls == [] {
    } else {
      var past, l := ls[..|ls| - 1], ls[|ls| - 1];
      EventsGrow(o, past);
      assert ls == past + [l];
      TagsSnoc(past, l);
      PerformSnoc(o, past, l);
    }
  }

  lemma TagsDecide(ls: seq<Line>, n: nat)
    requires n <= |ls| && (n < |ls| ==> PerformAll(BEGIN, ls[..n]).status != Ok)
    ensures PerformAll(BEGIN, ls).events == PerformAll(BEGIN, ls[..n]).events <==> Tags(ls[n..]) == []
  {
    assert ls == ls[..n] + ls[n..];
    PerformConcat(BEGIN, ls[..n], ls[n..]);
    EventsGrow(PerformAll(BEGIN, ls[..n]), ls[n..]);
  }

  /** The documentation has a stop end the parse. Up to some line no callback asks for one; the
      callbacks made are those up to there exactly if no tag follows. */
  lemma StopEndsExactly(ls: seq<Line>)
    ensures var n := FirstStop(BEGIN, ls);
            && (forall m | 0 <= m < n :: PerformAll(BEGIN, ls[..m]).status == Ok)
            && (n < |ls| ==> PerformAll(BEGIN, ls[..n]).status != Ok)
            && (PerformAll(BEGIN, ls).events == PerformAll(BEGIN, ls[..n]).events <==> Tags(ls[n..]) == [])
  {
    NoneBeforeFirst(ls);
    TagsDecide(ls, FirstStop(BEGIN, ls));
  }

  /** What copa_read_fd returns for a written file, and copa_read drops, differs from COPA_OK exactly
      if the file is empty or its last tag repeats the kind of the one before it. */
  lemma DroppedStatus(ls: seq<Line>, k: nat, fd: Source)
    requires AllLegalLines(ls) && Holds(fd, ls, k)
    ensures Returned(fd, NOTHING) == if fd == [] then SysErr else if Repeats(Tags(ls)) then StopErr else Ok
    ensures Returned(fd, NOTHING) != Ok <==> fd == [] || Repeats(Tags(ls))
  {
    LinesRoundTrip(ls, k, fd);
    StatusExactly(ls);
  }

  lemma OneTag(a: seq<Piece>)
    ensures PerformAll(BEGIN, [Starting(a)]) == Outcome(Ok, [Started(Values(a))], NOTHING.(block := Some(map[])))
  {
    assert [Starting(a)][1..] == [];
    assert PerformAll(BEGIN, [Starting(a)]) == Perform(BEGIN, Starting(a));
  }

  lemma TwoTags(a: seq<Piece>, b: seq<Piece>)
    ensures PerformAll(BEGIN, [Starting(a), Starting(b)])
         == Outcome(StopErr, [Started(Values(a)), Started(Values(b))], NOTHING.(block := Some(map[])))
  {
    OneTag(a);
    assert [Starting(a)] + [Starting(b)] == [Starting(a), Starting(b)];
    PerformSnoc(BEGIN, [Starting(a)], Starting(b));
  }

  lemma ThreeTags(a: seq<Piece>, b: seq<Piece>, c: seq<Piece>)
    ensures var o := PerformAll(BEGIN, [Starting(a), Starting(b), Ending(c)]);
            o.status == Ok && o.events == [Started(Values(a)), Started(Values(b)), Ended(Values(c))]
  {
    TwoTags(a, b);
    assert [Starting(a), Starting(b)] + [Ending(c)] == [Starting(a), Starting(b), Ending(c)];
    PerformSnoc(BEGIN, [Starting(a), Starting(b)], Ending(c));
  }

  /** A block inside a block: the callback asks for a stop, but the end tag is reported as well, and
      takes the stop back. */
  lemma NestedBlockGoesOn(a: seq<Piece>, b: seq<Piece>, c: seq<Piece>, k: nat, fd: Source)
    requires LegalStart(a) && LegalStart(b) && LegalEnd(c)
    requires Holds(fd, [Starting(a), Starting(b), Ending(c)], k)
    ensures PerformAll(BEGIN, [Starting(a), Starting(b)]).status == StopErr
    ensures Returned(fd, NOTHING) == Ok
    ensures Parsed(fd).events == [Started(Values(a)), Started(Values(b)), Ended(Values(c))]
  {
    LinesRoundTrip([Starting(a), Starting(b), Ending(c)], k, fd);
    TwoTags(a, b);
    ThreeTags(a, b, c);
  }
}
