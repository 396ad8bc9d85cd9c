/** The line parser of cfg-parse.c on a whole text, and what it reports to the callbacks. */
module CopaParse {
  import opened CfgRead
  import opened Common
  import opened CopaScan

  datatype Event = Started(block: string) | Ended(block: string) | Assigned(name: string, value: string)

  /** A parse under way: the scanner, the status the last callback set, every callback made so far
      and the configuration the callbacks have built. */
  datatype Parse = Parse(scan: Scan, status: Status, events: seq<Event>, config: Config)

  /** The assign callback, made only while the status is COPA_OK. */
  function ReportAssignment(p: Parse, name: string, value: string): Parse {
    if p.status.Ok? then
      p.(events := p.events + [Assigned(name, value)], config := Assign(p.config, name, value))
    else p
  }

  /** The block callbacks: each sets the status. */
  function ReportBlock(p: Parse, end: bool, name: string): Parse {
    var (config, status) := if end then BlockEnd(p.config, name) else BlockStart(p.config, name);
    var event := if end then Ended(name) else Started(name);
    p.(status := status, events := p.events + [event], config := config)
  }

  /** The scanning of a value after the blanks before it: in quotes, or bare to the end of the line. */
  function ScanValue(s: Scan): (r: (Scan, Option<string>))
    ensures r.0.Weight() <= s.Weight() && (r.0.active ==> s.active)
  {
    var (t, c) := Peek(SkipOver(s, {Whitespace}));
    if In(c, {DQuote, SQuote}) then SlurpQuoted(t) else SlurpTo(t, {Comment, Newline}, {})
  }

  /** The scanning of copa_parse_assignment: a name and a value, or nothing. */
  function ScanAssignment(s: Scan): (r: (Scan, Option<(string, string)>))
    ensures r.0.Weight() <= s.Weight() && (r.0.active ==> s.active)
  {
    if !s.active then (s, None)
    else
      var (s1, name) := SlurpTo(s, {Whitespace}, {Comment, Newline});
      if name == None then (s1, None)
      else
        var (s2, value) := ScanValue(s1);
        if value == None then (s2.(active := false), None) else (s2, Some((name.value, value.value)))
  }

  /** copa_parse_assignment. */
  function ParseAssignment(p: Parse): (q: Parse)
    ensures q.scan == ScanAssignment(p.scan).0
  {
    var (s, got) := ScanAssignment(p.scan);
    if got == None then p.(scan := s) else ReportAssignment(p.(scan := s), got.value.0, got.value.1)
  }

  /** The scanning of copa_parse_block: whether it is an end tag, and its name, or nothing. */
  function ScanBlock(s: Scan): (r: (Scan, Option<(bool, string)>))
    ensures r.0.Weight() <= s.Weight() && (r.0.active ==> s.active)
  {
    var (s1, ok) := Expect(s, {LBracket});
    if !ok then (s1, None)
    else
      var (s2, c) := Peek(s1);
      var end := In(c, {Slash});
      var s3 := if end then Next(s2).0 else s2;
      var (s4, name) := SlurpTo(s3, {RBracket}, {Comment, Newline});
      if name == None then (s4, None)
      else
        var (s5, closed) := Expect(s4, {RBracket});
        (s5, if closed then Some((end, name.value)) else None)
  }

  /** copa_parse_block. */
  function ParseBlock(p: Parse): (q: Parse)
    ensures q.scan == ScanBlock(p.scan).0
  {
    var (s, got) := ScanBlock(p.scan);
    if got == None then p.(scan := s) else ReportBlock(p.(scan := s), got.value.0, got.value.1)
  }

  /** copa_parse_line. */
  function ParseLine(p: Parse): (q: Parse)
    ensures q.scan.Weight() <= p.scan.Weight() && (q.scan.active ==> p.scan.active)
  {
    var (s, c) := Peek(SkipOver(p.scan, {Whitespace}));
    var q := p.(scan := s);
    if In(c, {Comment}) then q.(scan := SkipTo(s, {Newline}))
    else if In(c, {LBracket}) then ParseBlock(q)
    else ParseAssignment(q)
  }

  lemma SlurpPastFirst(s: Scan, good: set<Class>, bad: set<Class>)
    requires s.active && s.mode.pushback != NUL && s.mode.pushback != EOF
    requires !In(s.mode.pushback, good)
    ensures SlurpTo(s, good, bad).0.Weight() < s.Weight() || !SlurpTo(s, good, bad).0.active
  {
  }

  /** Every line either ends the parse or uses up some of the text: escapes, look-ahead and
      pushed-back characters never let it stand still. */
  lemma ParseLineProgress(p: Parse)
    requires p.scan.active
    ensures ParseLine(p).scan.Weight() < p.scan.Weight() || !ParseLine(p).scan.active
  {
    var t := SkipOver(p.scan, {Whitespace});
    if t.active && t.Weight() == p.scan.Weight() {
      var c := t.mode.pushback;
      if In(c, {Comment}) {
        assert SkipTo(t, {Newline}) == Skip(Next(t).0, {Newline}, false);
      } else if !In(c, {LBracket}) {
        SlurpPastFirst(t, {Whitespace}, {Comment, Newline});
        AssignmentAfterName(t);
      } else {
        BlockAfterBracket(t);
      }
    }
  }

  lemma AssignmentAfterName(s: Scan)
    ensures ScanAssignment(s).0.Weight() <= SlurpTo(s, {Whitespace}, {Comment, Newline}).0.Weight()
    ensures ScanAssignment(s).0.active ==> SlurpTo(s, {Whitespace}, {Comment, Newline}).0.active
  {
  }

  lemma BlockAfterBracket(s: Scan)
    ensures ScanBlock(s).0.Weight() <= Expect(s, {LBracket}).0.Weight()
    ensures ScanBlock(s).0.active ==> Expect(s, {LBracket}).0.active
  {
  }

  /** The loop of copa_read_fd. */
  function ParseAll(p: Parse): (q: Parse)
    ensures !q.scan.active
    decreases p.scan.active, p.scan.Weight()
  {
    if !p.scan.active then p
    else
      ParseLineProgress(p);
      ParseAll(ParseLine(p))
  }
}
