/** The status in any parse of any source, told from the callbacks made so far. */
module CopaStatus {
  import opened CfgRead
  import opened CopaFile
  import opened CopaParse
  import opened CopaParser
  import opened CopaScan
  import opened CopaScanner
  import opened CopaStops

  /** The tags among the callbacks: is each an end tag? */
  function TagsOf(events: seq<Event>): seq<bool> {
    if events == [] then []
    else TagsOf(events[..|events| - 1]) + match events[|events| - 1] {
                                            case Assigned(_, _) => []
                                            case Started(_) => [false]
                                            case Ended(_) => [true]
                                          }
  }

  lemma TagsOfSnoc(events: seq<Event>, e: Event)
    ensures TagsOf(events + [e])
         == TagsOf(events) + match e { case Assigned(_, _) => [] case Started(_) => [false] case Ended(_) => [true] }
  {
    assert (events + [e])[..|events|] == events;
  }

  /** A block is open exactly after a start tag, and the status is a stop exactly after a tag of the
      kind of the one before it. */
  predicate Told(p: Parse) {
    var tags := TagsOf(p.events);
    && (p.config.block.Some? <==> tags != [] && !tags[|tags| - 1])
    && p.status == if Repeats(tags) then StopErr else Ok
  }

  predicate Extends(some: seq<bool>, all: seq<bool>) {
    |some| <= |all| && all[..|some|] == some
  }

  /** q has the tags of p and at most one more. */
  predicate Goes(p: Parse, q: Parse) {
    Extends(TagsOf(p.events), TagsOf(q.events)) && |TagsOf(q.events)| <= |TagsOf(p.events)| + 1
  }

  lemma AssignmentReported(p: Parse, name: string, value: string)
    requires Told(p)
    ensures Told(ReportAssignment(p, name, value)) && Goes(p, ReportAssignment(p, name, value))
  {
    TagsOfSnoc(p.events, Assigned(name, value));
  }

  lemma BlockReported(p: Parse, end: bool, name: string)
    requires Told(p)
    ensures Told(ReportBlock(p, end, name)) && Goes(p, ReportBlock(p, end, name))
  {
    TagsOfSnoc(p.events, if end then Ended(name) else Started(name));
  }

  lemma AssignmentTold(p: Parse)
    requires Told(p)
    ensures Told(ParseAssignment(p)) && Goes(p, ParseAssignment(p))
  {
    var (s, got) := ScanAssignment(p.scan);
    ToldAt(p, s);
    if got.Some? {
      AssignmentReported(p.(scan := s), got.value.0, got.value.1);
    }
  }

  lemma BlockTold(p: Parse)
    requires Told(p)
    ensures Told(ParseBlock(p)) && Goes(p, ParseBlock(p))
  {
    var (s, got) := ScanBlock(p.scan);
    ToldAt(p, s);
    if got.Some? {
      BlockReported(p.(scan := s), got.value.0, got.value.1);
    }
  }

  lemma ToldAt(p: Parse, s: Scan)
    ensures Told(p) ==> Told(p.(scan := s)) && Goes(p, p.(scan := s))
  {
  }

  lemma LineTold(p: Parse)
    requires Told(p)
    ensures Told(ParseLine(p)) && Goes(p, ParseLine(p))
  {
    var (s, c) := Peek(SkipOver(p.scan, {Whitespace}));
    var q := p.(scan := s);
    ToldAt(p, s);
    if In(c, {Comment}) {
      ToldAt(q, SkipTo(s, {Newline}));
    } else if In(c, {LBracket}) {
      BlockTold(q);
    } else {
      AssignmentTold(q);
    }
  }

  /** The parse after so many lines. */
  function Lines(p: Parse, n: nat): Parse {
    if n == 0 then p
    else
      var q := Lines(p, n - 1);
      if q.scan.active then ParseLine(q) else q
  }

  lemma {:induction false} LinesTold(p: Parse, n: nat)
    requires Told(p)
    ensures Told(Lines(p, n))
  {
    if n == 0 {
    } else {
      LinesTold(p, n - 1);
      LineTold(Lines(p, n - 1));
    }
  }

  /** They do not change what the whole parse comes to. */
  lemma {:induction false} LinesRun(run: Parse -> Parse, p: Parse, n: nat)
    requires RunsLines(run)
    ensures run(Lines(p, n)) == run(p)
  {
    if n == 0 {
    } else {
      LinesRun(run, p, n - 1);
      assert Unrolls(run, Lines(p, n - 1));
    }
  }

  lemma ExtendsTwice(a: seq<bool>, b: seq<bool>, c: seq<bool>)
    requires Extends(a, b) && Extends(b, c)
    ensures Extends(a, c)
  {
    assert c[..|b|][..|a|] == c[..|a|];
  }

  /** No callback is ever taken back. */
  lemma {:induction false} TagsStay(p: Parse, all: Parse)
    requires Told(p) && all == ParseAll(p)
    ensures Told(all) && Extends(TagsOf(p.events), TagsOf(all.events))
    decreases p.scan.active, p.scan.Weight()
  {
    if !p.scan.active {
    } else {
      var q := ParseLine(p);
      LineTold(p);
      ParseLineProgress(p);
      TagsStay(q, all);
      ExtendsTwice(TagsOf(p.events), TagsOf(q.events), TagsOf(all.events));
    }
  }

  lemma LineOf(p: Parse, i: nat, q: Parse) returns (r: Parse)
    requires q == Lines(p, i) && q.scan.active && Told(q)
    ensures r == Lines(p, i + 1) && Told(r) && Goes(q, r) && ParseAll(r) == ParseAll(q)
    ensures r.scan.Weight() < q.scan.Weight() || !r.scan.active
  {
    r := ParseLine(q);
    LineTold(q);
    ParseLineProgress(q);
  }

  /** Every tag is the last one after some line. */
  lemma {:induction false} TagReached(p: Parse, i: nat, q: Parse, all: Parse, k: nat) returns (n: nat)
    requires Told(q) && q == Lines(p, i) && all == ParseAll(q)
    requires |TagsOf(q.events)| <= k <= |TagsOf(all.events)|
    ensures |TagsOf(Lines(p, n).events)| == k
    decreases q.scan.active, q.scan.Weight()
  {
    if |TagsOf(q.events)| == k {
      n := i;
    } else {
      var r := LineOf(p, i, q);
      n := TagReached(p, i + 1, r, all, k);
    }
  }

  /** The parse that copa_read_fd starts, from an empty configuration. */
  ghost function Begun(fd: Source): Parse
    requires SourceOk(fd)
  {
    Parse(FirstScan(fd), Ok, [], NOTHING)
  }

  /** In every parse, after every line, the callbacks made so far tell the status and whether a block
      is open; and the callbacks of the whole parse tell what copa_read_fd returns. */
  lemma StatusTold(fd: Source, n: nat)
    requires SourceOk(fd)
    ensures Told(Lines(Begun(fd), n)) && Told(Parsed(fd))
    ensures Returned(fd, NOTHING)
         == if fd == [] then SysErr else if Repeats(TagsOf(Parsed(fd).events)) then StopErr else Ok
  {
    LinesTold(Begun(fd), n);
    TagsStay(Begun(fd), Parsed(fd));
  }

  lemma TagsAfter(fd: Source, n: nat)
    requires SourceOk(fd)
    ensures Extends(TagsOf(Lines(Begun(fd), n).events), TagsOf(Parsed(fd).events))
    ensures Lines(Begun(fd), n).status == if Repeats(TagsOf(Lines(Begun(fd), n).events)) then StopErr else Ok
  {
    ParseAllUnrolls();
    LinesTold(Begun(fd), n);
    LinesRun(ParseAll, Begun(fd), n);
    TagsStay(Lines(Begun(fd), n), Parsed(fd));
  }

  /** In no parse of a file does a callback ask for a stop, exactly if the tags that it reports
      alternate, a start tag first. */
  lemma NoStopInAny(fd: Source)
    requires SourceOk(fd)
    ensures (forall n: nat :: Lines(Begun(fd), n).status == Ok) <==> Alternate(TagsOf(Parsed(fd).events))
  {
    var tags := TagsOf(Parsed(fd).events);
    AlternateFrom(tags);
    if Alternate(tags) {
      forall n: nat ensures Lines(Begun(fd), n).status == Ok {
        TagsAfter(fd, n);
      }
    } else {
      var k :| 0 <= k <= |tags| && Repeats(tags[..k]);
      var n := TagReached(Begun(fd), 0, Begun(fd), Parsed(fd), k);
      TagsAfter(fd, n);
    }
  }
}
