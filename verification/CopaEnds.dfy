/** Ends of files that are not line ends: a last line without one, and lines that the parser gives up
    on. Nothing after such a line is read. */
module CopaEnds {
  import opened CfgRead
  import opened Common
  import opened CopaFile
  import opened CopaLines
  import opened CopaParse
  import opened CopaParser
  import opened CopaReads
  import opened CopaScan
  import opened CopaScanner
  import opened CopaText

  datatype End =
    | LastValue(name: seq<Piece>, blank: string, text: seq<Piece>)
    | LastRemark(text: seq<Piece>)
    | Valueless(name: seq<Piece>, blank: string)
    | OpenQuote(name: seq<Piece>, blank: string, quote: char, text: seq<Piece>)
    | HashedName(name: seq<Piece>, rest: string)
    | OpenTag(ends: bool, name: seq<Piece>, z: char, rest: string)
    | LastTag(ends: bool, name: seq<Piece>)

  predicate LegalEnding(e: End) {
    match e
    case LastValue(name, blank, text) =>
      LegalName(name) && LegalBlank(blank) && LegalWording(Bare(text, None)) && Followed(text, "")
    case LastRemark(text) => LegalRemark(text) && Followed(text, "")
    case Valueless(name, blank) => LegalName(name) && LegalBlank(blank)
    case OpenQuote(name, blank, q, text) =>
      LegalName(name) && LegalBlank(blank) && LegalWording(Quoted(q, text)) && Followed(text, "")
    case HashedName(name, rest) => LegalName(name) && NUL !in rest
    case OpenTag(ends, name, z, rest) =>
      LegalTag(ends, name) && (z == '\n' || z == '\r' || z == '#') && NUL !in rest
    case LastTag(ends, name) => LegalTag(ends, name) && Followed(name, "")
  }

  predicate LegalTag(ends: bool, name: seq<Piece>) {
    if ends then LegalEnd(name) else LegalStart(name)
  }

  function SlashIf(ends: bool): string {
    if ends then "/" else ""
  }

  function EndText(e: End): string {
    match e
    case LastValue(name, blank, text) => Text(name) + (blank + Text(text))
    case LastRemark(text) => "#" + Text(text)
    case Valueless(name, blank) => Text(name) + (blank + "")
    case OpenQuote(name, blank, q, text) => Text(name) + (blank + ([q] + Text(text)))
    case HashedName(name, rest) => Text(name) + (['#'] + rest)
    case OpenTag(ends, name, z, rest) => "<" + (SlashIf(ends) + (Text(name) + ([z] + rest)))
    case LastTag(ends, name) => "<" + (SlashIf(ends) + (Text(name) + ""))
  }

  /** Only a last value counts. */
  function Ended(o: Outcome, e: End): Outcome {
    match e
    case LastValue(name, blank, text) => Perform(o, Assigning(Setting(name, blank, Bare(text, None))))
    case _ => o
  }

  // ------------------------------------------------------------------ scanning to the end

  lemma ParseOnce(p: Parse)
    requires p.scan.active && !ParseLine(p).scan.active
    ensures ParseAll(p) == ParseLine(p)
  {
  }

  lemma {:induction false} SlurpToEnd(s: Scan, cs: string, h: Held, good: set<Class>, bad: set<Class>, got: string)
    requires Yields(s, cs, At("", h)) && forall i | 0 <= i < |cs| :: !In(cs[i], good) && !In(cs[i], bad)
    ensures Slurp(s, good, bad, got) == (At("", h).(active := false), Some(got + cs))
    decreases |cs|
  {
    if cs == [] {
      assert got + cs == got;
    } else {
      SlurpToEnd(Next(s).0, cs[1..], h, good, bad, got + [cs[0]]);
      assert got + [cs[0]] + cs[1..] == got + cs;
    }
  }

  lemma {:induction false} SlurpBad(
    s: Scan, cs: string, z: char, t: Scan, good: set<Class>, bad: set<Class>, got: string)
    requires Yields(s, cs + [z], t) && In(z, bad) && !In(z, good)
    requires forall i | 0 <= i < |cs| :: !In(cs[i], good) && !In(cs[i], bad)
    ensures Slurp(s, good, bad, got).1 == None && !Slurp(s, good, bad, got).0.active
    decreases |cs|
  {
    if cs == [] {
      assert cs + [z] == [z];
    } else {
      assert (cs + [z])[1..] == cs[1..] + [z];
      SlurpBad(Next(s).0, cs[1..], z, t, good, bad, got + [cs[0]]);
    }
  }

  /** The last pieces of a file, the first of which is pushed back. */
  lemma MidToEnd(c: char, ps: seq<Piece>, h: Held) returns (g: Held)
    requires Followed(ps, "") && c != NUL && c != EOF && Clear(Text(ps) + "", h)
    ensures Yields(Mid(c, ps, "", h), [c] + Values(ps), At("", g))
  {
    g := TextYields(ps, "", h);
    YieldsPushed(At(Text(ps) + "", h), c, Values(ps), At("", g));
  }

  lemma ToEndFirst(ps: seq<Piece>)
    requires ps != [] && Followed(ps, "")
    ensures Followed(ps[1..], "") && Legal(ps[0]) && [Value(ps[0])] + Values(ps[1..]) == Values(ps)
  {
    FollowedTail(ps, "");
  }

  // ------------------------------------------------------------------ after a name

  /** The name of a setting is read, whatever comes after the blanks behind it. */
  lemma NameRead(p: Parse, ws: string, name: seq<Piece>, blank: string, tail: string, h: Held)
    returns (k: Held, g: Held)
    requires LegalName(name) && LegalBlank(blank) && LineStart(p, ws, Text(name) + (blank + tail), h)
    ensures var s := Mid(Value(name[0]), name[1..], blank + tail, k);
            && ParseLine(p) == ParseAssignment(p.(scan := s))
            && SlurpTo(s, {Whitespace}, {Comment, Newline}) == (At(blank + tail, g), Some(Values(name)))
  {
    assert !In(Values(name)[0], {Whitespace, Comment}) && Legal(name[0]);
    BlankEnds(name, blank, tail);
    k := FirstOfLine(ws, name, blank + tail, h);
    AssignmentBegins(p, Mid(Value(name[0]), name[1..], blank + tail, k), Value(name[0]));
    g := NameSlurped(Value(name[0]), name[1..], blank, tail, k);
    assert [Value(name[0])] + Values(name[1..]) == Values(name);
  }

  lemma AssignmentAfter(s: Scan, t: Scan, name: string)
    requires s.active && SlurpTo(s, {Whitespace}, {Comment, Newline}) == (t, Some(name))
    ensures ScanAssignment(s) == if ScanValue(t).1 == None then (ScanValue(t).0.(active := false), None)
                                 else (ScanValue(t).0, Some((name, ScanValue(t).1.value)))
  {
  }

  /** A setting without a value that can be read: the parse ends, and nothing is reported. */
  lemma NoValueEnds(p: Parse, ws: string, name: seq<Piece>, blank: string, tail: string, h: Held)
    requires LegalName(name) && LegalBlank(blank) && LineStart(p, ws, Text(name) + (blank + tail), h)
    requires forall g: Held :: ScanValue(At(blank + tail, g)).1 == None
    ensures OutcomeOf(ParseAll(p)) == OutcomeOf(p)
  {
    var k, g := NameRead(p, ws, name, blank, tail, h);
    AssignmentAfter(Mid(Value(name[0]), name[1..], blank + tail, k), At(blank + tail, g), Values(name));
    ParseOnce(p);
  }

  lemma NothingToScan(blank: string, h: Held)
    requires AllSpace(blank)
    ensures ScanValue(At(blank + "", h)).1 == None
  {
    var g := BlankYields(blank, "", h);
    SkipToEnd(At(blank + "", h), blank, g);
    var end := At("", g).(active := false);
    assert Peek(end) == (end, EOF);
  }

  lemma ValueIsQuoted(s: Scan, t: Scan, q: char)
    requires Peek(SkipOver(s, {Whitespace})) == (t, q) && (q == '"' || q == '\'')
    ensures ScanValue(s) == SlurpQuoted(t)
  {
  }

  lemma QuotedOpen(q: char, ps: seq<Piece>, h: Held)
    requires LegalWording(Quoted(q, ps)) && Followed(ps, "") && Clear(Text(ps) + "", h)
    ensures SlurpQuoted(PushBack(At(Text(ps) + "", h), q)).1 == None
  {
    var t := At(Text(ps) + "", h);
    assert Next(PushBack(t, q)) == (t, q);
    var g := TextYields(ps, "", h);
    SlurpToEnd(t, Values(ps), g, if In(q, {SQuote}) then {SQuote} else {DQuote}, {}, []);
    QuotedUnended(PushBack(t, q), t, q);
  }

  lemma QuotedUnended(s: Scan, t: Scan, q: char)
    requires s.active && Next(s) == (t, q)
    requires !SlurpTo(t, if In(q, {SQuote}) then {SQuote} else {DQuote}, {}).0.active
    ensures SlurpQuoted(s).1 == None
  {
  }

  lemma OnePiece(c: char, tail: string, text: string)
    requires tail == text + ""
    ensures tail == text && Text([Plain(c)]) + tail == [c] + text && Text([Plain(c)][1..]) + tail == tail
  {
    assert [Plain(c)][1..] == [];
    assert Text([Plain(c)]) == [c];
  }

  lemma QuoteStaysOpen(blank: string, q: char, ps: seq<Piece>, h: Held)
    requires AllSpace(blank) && LegalWording(Quoted(q, ps)) && Followed(ps, "")
    ensures ScanValue(At(blank + ([q] + Text(ps)), h)).1 == None
  {
    var tail := Text(ps) + "";
    OnePiece(q, tail, Text(ps));
    var j := FirstOfLine(blank, [Plain(q)], tail, h);
    ValueIsQuoted(At(blank + ([q] + Text(ps)), h), PushBack(At(tail, j), q), q);
    QuotedOpen(q, ps, j);
  }

  lemma LastValueScanned(blank: string, ps: seq<Piece>, h: Held) returns (g: Held)
    requires AllSpace(blank) && LegalWording(Bare(ps, None)) && Followed(ps, "")
    ensures ScanValue(At(blank + Text(ps), h)) == (At("", g).(active := false), Some(Values(ps)))
  {
    assert Text(ps) + "" == Text(ps);
    var j := FirstOfLine(blank, ps, "", h);
    ToEndFirst(ps);
    g := MidToEnd(Value(ps[0]), ps[1..], j);
    SlurpToEnd(Mid(Value(ps[0]), ps[1..], "", j), Values(ps), g, {Comment, Newline}, {}, []);
    assert [] + Values(ps) == Values(ps);
  }

  lemma LastValueEnds(p: Parse, ws: string, name: seq<Piece>, blank: string, text: seq<Piece>, h: Held)
    requires LegalEnding(LastValue(name, blank, text)) && LineStart(p, ws, Text(name) + (blank + Text(text)), h)
    ensures OutcomeOf(ParseAll(p)) == Ended(OutcomeOf(p), LastValue(name, blank, text))
  {
    var k, g := NameRead(p, ws, name, blank, Text(text), h);
    AssignmentAfter(Mid(Value(name[0]), name[1..], blank + Text(text), k), At(blank + Text(text), g), Values(name));
    var j := LastValueScanned(blank, text, g);
    ParseOnce(p);
  }

  // ------------------------------------------------------------------ other lines

  lemma HashSlurped(name: seq<Piece>, rest: string, h: Held)
    requires LegalName(name) && Clear(Text(name[1..]) + (['#'] + rest), h)
    ensures var s := Mid(Value(name[0]), name[1..], ['#'] + rest, h);
            var t := SlurpTo(s, {Whitespace}, {Comment, Newline});
            t.1 == None && !t.0.active
  {
    ToEndName(name);
    var g := MidYields(Value(name[0]), name[1..], '#', rest, h);
    SlurpBad(Mid(Value(name[0]), name[1..], ['#'] + rest, h), Values(name), '#', At(rest, g),
             {Whitespace}, {Comment, Newline}, []);
  }

  lemma ToEndName(name: seq<Piece>)
    requires LegalName(name)
    ensures Legal(name[0]) && AllLegal(name[1..]) && [Value(name[0])] + Values(name[1..]) == Values(name)
    ensures !In(Value(name[0]), {Whitespace, Comment, LBracket})
  {
    assert !In(Values(name)[0], {Whitespace, Comment});
    Uncons(name);
    LegalCons(name[0], name[1..]);
  }

  lemma HashEnds(p: Parse, ws: string, name: seq<Piece>, rest: string, h: Held)
    requires LegalName(name) && LineStart(p, ws, Text(name) + (['#'] + rest), h)
    ensures OutcomeOf(ParseAll(p)) == OutcomeOf(p)
  {
    ToEndName(name);
    StopEnds(name[|name| - 1], '#', rest);
    var k := FirstOfLine(ws, name, ['#'] + rest, h);
    var s := Mid(Value(name[0]), name[1..], ['#'] + rest, k);
    HashSlurped(name, rest, k);
    AssignmentFails(s);
    NoAssignment(p, s, Value(name[0]));
  }

  lemma NoAssignment(p: Parse, s: Scan, c: char)
    requires p.scan.active && Peek(SkipOver(p.scan, {Whitespace})) == (s, c) && !In(c, {Comment, LBracket})
    requires ScanAssignment(s).1 == None && !ScanAssignment(s).0.active
    ensures OutcomeOf(ParseAll(p)) == OutcomeOf(p)
  {
    AssignmentBegins(p, s, c);
    ParseOnce(p);
  }

  lemma AssignmentFails(s: Scan)
    requires SlurpTo(s, {Whitespace}, {Comment, Newline}).1 == None
    ensures ScanAssignment(s) == (SlurpTo(s, {Whitespace}, {Comment, Newline}).0, None)
  {
  }

  lemma BlockFails(s1: Scan, s2: Scan, c: char)
    requires s1.active && s1.mode.pushback == NUL && Peek(s1) == (s2, c) && !In(c, {Slash})
    requires var t := SlurpTo(s2, {RBracket}, {Comment, Newline}); t.1 == None && !t.0.active
    ensures ScanBlock(PushBack(s1, '<')).1 == None && !ScanBlock(PushBack(s1, '<')).0.active
  {
    assert Expect(PushBack(s1, '<'), {LBracket}) == (s1, true);
  }

  lemma NamelessCut(z: char, rest: string, h: Held)
    requires (z == '\n' || z == '\r' || z == '#') && Clear([z] + rest, h)
    ensures var s := PushBack(At([z] + rest, h), '<'); ScanBlock(s).1 == None && !ScanBlock(s).0.active
  {
    PlainYields(z, rest, h);
    var t := At(rest, Held(h.number, false));
    YieldsPushed(t, z, [], t);
    assert [z] + [] == [] + [z];
    SlurpBad(PushBack(t, z), [], z, t, {RBracket}, {Comment, Newline}, []);
    BlockFails(At([z] + rest, h), PushBack(t, z), z);
  }

  lemma NamedCut(name: seq<Piece>, z: char, rest: string, h: Held)
    requires LegalStart(name) && name != [] && (z == '\n' || z == '\r' || z == '#')
    requires Clear(Text(name) + ([z] + rest), h)
    ensures var s := PushBack(At(Text(name) + ([z] + rest), h), '<');
            ScanBlock(s).1 == None && !ScanBlock(s).0.active
  {
    var c, ps, tail := Value(name[0]), name[1..], [z] + rest;
    TextCons(name, tail);
    StopEnds(name[|name| - 1], z, rest);
    FollowedTail(name, tail);
    var k := PieceYields(name[0], Text(ps) + tail, h);
    SettledIsClear(name, tail, k);
    var g := MidYields(c, ps, z, rest, k);
    var s2 := Mid(c, ps, tail, k);
    TextCut(s2, Values(name), z, At(rest, g));
    BlockFails(At(Text(name) + tail, h), s2, c);
  }

  lemma TextCut(s: Scan, name: string, z: char, t: Scan)
    requires s.active && (z == '\n' || z == '\r' || z == '#') && Yields(s, name + [z], t)
    requires Free(name, {RBracket, Comment, Newline})
    ensures var u := SlurpTo(s, {RBracket}, {Comment, Newline}); u.1 == None && !u.0.active
  {
    SlurpBad(s, name, z, t, {RBracket}, {Comment, Newline}, []);
  }

  /** The name of an end tag is scanned from behind its slash on. */
  lemma EndFails(text: string, h: Held)
    requires Clear("/" + text, h)
    requires forall g: Held :: var t := SlurpTo(At(text, g), {RBracket}, {Comment, Newline});
                               (t.1 == None || t.0.rest == []) && !t.0.active
    ensures var s := PushBack(At("/" + text, h), '<'); ScanBlock(s).1 == None && !ScanBlock(s).0.active
  {
    var s1 := At("/" + text, h);
    assert Next(PushBack(s1, '<')) == (s1, '<');
    PlainYields('/', text, h);
  }

  lemma EndNameCut(name: seq<Piece>, z: char, rest: string, h: Held)
    requires LegalEnd(name) && (z == '\n' || z == '\r' || z == '#')
    ensures var t := SlurpTo(At(Text(name) + ([z] + rest), h), {RBracket}, {Comment, Newline});
            t.1 == None && !t.0.active
  {
    var g := TextThen(name, z, rest, h);
    TextCut(At(Text(name) + ([z] + rest), h), Values(name), z, At(rest, g));
  }

  lemma EndNameLast(name: seq<Piece>, h: Held)
    requires LegalEnd(name) && Followed(name, "")
    ensures var t := SlurpTo(At(Text(name) + "", h), {RBracket}, {Comment, Newline});
            t.0.rest == [] && !t.0.active
  {
    var g := TextYields(name, "", h);
    SlurpToEnd(At(Text(name) + "", h), Values(name), g, {RBracket}, {Comment, Newline}, []);
  }

  lemma TagCut(ends: bool, name: seq<Piece>, z: char, rest: string, h: Held)
    requires LegalTag(ends, name) && (z == '\n' || z == '\r' || z == '#')
    requires Clear(SlashIf(ends) + (Text(name) + ([z] + rest)), h)
    ensures var s := PushBack(At(SlashIf(ends) + (Text(name) + ([z] + rest)), h), '<');
            ScanBlock(s).1 == None && !ScanBlock(s).0.active
  {
    var text := Text(name) + ([z] + rest);
    if ends {
      forall g: Held ensures SlurpTo(At(text, g), {RBracket}, {Comment, Newline}).1 == None
                             && !SlurpTo(At(text, g), {RBracket}, {Comment, Newline}).0.active {
        EndNameCut(name, z, rest, g);
      }
      EndFails(text, h);
    } else {
      assert "" + text == text;
      StartTagCut(name, z, rest, h);
    }
  }

  lemma StartTagCut(name: seq<Piece>, z: char, rest: string, h: Held)
    requires LegalStart(name) && (z == '\n' || z == '\r' || z == '#') && Clear(Text(name) + ([z] + rest), h)
    ensures var s := PushBack(At(Text(name) + ([z] + rest), h), '<');
            ScanBlock(s).1 == None && !ScanBlock(s).0.active
  {
    if name == [] {
      assert Text(name) + ([z] + rest) == [z] + rest;
      NamelessCut(z, rest, h);
    } else {
      NamedCut(name, z, rest, h);
    }
  }

  /** A start tag that the file ends in. */
  lemma StartTagLast(name: seq<Piece>, h: Held)
    requires LegalStart(name) && Followed(name, "") && Clear(Text(name) + "", h)
    ensures var s := PushBack(At(Text(name) + "", h), '<'); ScanBlock(s).1 == None && !ScanBlock(s).0.active
  {
    var s1 := At(Text(name) + "", h);
    assert Next(PushBack(s1, '<')) == (s1, '<');
    if name != [] {
      TextCons(name, "");
      ToEndFirst(name);
      FollowedTail(name, "");
      var k := PieceYields(name[0], Text(name[1..]) + "", h);
      SettledIsClear(name, "", k);
      var g := MidToEnd(Value(name[0]), name[1..], k);
      var s2 := Mid(Value(name[0]), name[1..], "", k);
      SlurpToEnd(s2, Values(name), g, {RBracket}, {Comment, Newline}, []);
      NoBracket(s1, s2, Value(name[0]));
    } else {
      assert Next(s1).1 == EOF;
    }
  }

  lemma NoBracket(s1: Scan, s2: Scan, c: char)
    requires s1.active && s1.mode.pushback == NUL && Peek(s1) == (s2, c) && !In(c, {Slash})
    requires !SlurpTo(s2, {RBracket}, {Comment, Newline}).0.active
    ensures ScanBlock(PushBack(s1, '<')).1 == None && !ScanBlock(PushBack(s1, '<')).0.active
  {
    assert Expect(PushBack(s1, '<'), {LBracket}) == (s1, true);
  }

  lemma TagLast(ends: bool, name: seq<Piece>, h: Held)
    requires LegalTag(ends, name) && Followed(name, "") && Clear(SlashIf(ends) + (Text(name) + ""), h)
    ensures var s := PushBack(At(SlashIf(ends) + (Text(name) + ""), h), '<');
            ScanBlock(s).1 == None && !ScanBlock(s).0.active
  {
    var text := Text(name) + "";
    if ends {
      forall g: Held ensures SlurpTo(At(text, g), {RBracket}, {Comment, Newline}).0.rest == []
                             && !SlurpTo(At(text, g), {RBracket}, {Comment, Newline}).0.active {
        EndNameLast(name, g);
      }
      EndFails(text, h);
    } else {
      assert "" + text == text;
      StartTagLast(name, h);
    }
  }

  lemma NoBlock(p: Parse, s: Scan)
    requires p.scan.active && ParseLine(p) == ParseBlock(p.(scan := s))
    requires ScanBlock(s).1 == None && !ScanBlock(s).0.active
    ensures OutcomeOf(ParseAll(p)) == OutcomeOf(p)
  {
    ParseOnce(p);
  }

  lemma TagEnds(p: Parse, ws: string, ends: bool, name: seq<Piece>, z: char, rest: string, h: Held)
    requires LegalEnding(OpenTag(ends, name, z, rest))
    requires LineStart(p, ws, "<" + (SlashIf(ends) + (Text(name) + ([z] + rest))), h)
    ensures OutcomeOf(ParseAll(p)) == OutcomeOf(p)
  {
    var text := SlashIf(ends) + (Text(name) + ([z] + rest));
    var g := BlockBegins(p, ws, text, h);
    TagCut(ends, name, z, rest, g);
    NoBlock(p, PushBack(At(text, g), '<'));
  }

  lemma LastTagEnds(p: Parse, ws: string, ends: bool, name: seq<Piece>, h: Held)
    requires LegalEnding(LastTag(ends, name)) && LineStart(p, ws, "<" + (SlashIf(ends) + (Text(name) + "")), h)
    ensures OutcomeOf(ParseAll(p)) == OutcomeOf(p)
  {
    var text := SlashIf(ends) + (Text(name) + "");
    var g := BlockBegins(p, ws, text, h);
    TagLast(ends, name, g);
    NoBlock(p, PushBack(At(text, g), '<'));
  }

  lemma {:induction false} SkipAllToEnd(s: Scan, cs: string, h: Held, classes: set<Class>)
    requires Yields(s, cs, At("", h)) && forall i | 0 <= i < |cs| :: !In(cs[i], classes)
    ensures Skip(s, classes, false) == At("", h).(active := false)
    decreases |cs|
  {
    if cs == [] {
    } else {
      SkipAllToEnd(Next(s).0, cs[1..], h, classes);
    }
  }

  lemma RemarkEnds(p: Parse, ws: string, text: seq<Piece>, h: Held)
    requires LegalEnding(LastRemark(text)) && LineStart(p, ws, "#" + Text(text), h)
    ensures OutcomeOf(ParseAll(p)) == OutcomeOf(p)
  {
    var all := [Plain('#')] + text;
    assert all[1..] == text && Text(all) + "" == "#" + Text(text);
    LegalCons(Plain('#'), text);
    var k := FirstOfLine(ws, all, "", h);
    var g := MidToEnd('#', text, k);
    SkipAllToEnd(Mid('#', text, "", k), ['#'] + Values(text), g, {Newline});
    NothingButRemark(p, Mid('#', text, "", k));
  }

  lemma NothingButRemark(p: Parse, s: Scan)
    requires p.scan.active && Peek(SkipOver(p.scan, {Whitespace})) == (s, '#') && !SkipTo(s, {Newline}).active
    ensures OutcomeOf(ParseAll(p)) == OutcomeOf(p)
  {
    ParseOnce(p);
  }

  /** What is left of a file, if it is one of these ends. */
  lemma EndRead(p: Parse, ws: string, e: End, h: Held)
    requires LegalEnding(e) && LineStart(p, ws, EndText(e), h)
    ensures OutcomeOf(ParseAll(p)) == Ended(OutcomeOf(p), e)
  {
    match e {
      case LastValue(name, blank, text) => LastValueEnds(p, ws, name, blank, text, h);
      case LastRemark(text) => RemarkEnds(p, ws, text, h);
      case Valueless(name, blank) =>
        forall g: Held ensures ScanValue(At(blank + "", g)).1 == None { NothingToScan(blank, g); }
        NoValueEnds(p, ws, name, blank, "", h);
      case OpenQuote(name, blank, q, text) =>
        forall g: Held ensures ScanValue(At(blank + ([q] + Text(text)), g)).1 == None {
          QuoteStaysOpen(blank, q, text, g);
        }
        NoValueEnds(p, ws, name, blank, [q] + Text(text), h);
      case HashedName(name, rest) => HashEnds(p, ws, name, rest, h);
      case OpenTag(ends, name, z, rest) => TagEnds(p, ws, ends, name, z, rest, h);
      case LastTag(ends, name) => LastTagEnds(p, ws, ends, name, h);
    }
  }

  // ------------------------------------------------------------------ whole files

  lemma EndNulFree(e: End)
    requires LegalEnding(e)
    ensures NUL !in EndText(e)
  {
    match e {
      case LastValue(name, _, text) =>
        TextNulFree(name);
        TextNulFree(text);
      case LastRemark(text) => TextNulFree(text);
      case Valueless(name, _) => TextNulFree(name);
      case OpenQuote(name, _, _, text) =>
        TextNulFree(name);
        TextNulFree(text);
      case HashedName(name, _) => TextNulFree(name);
      case OpenTag(_, name, _, _) => TextNulFree(name);
      case LastTag(_, name) => TextNulFree(name);
    }
  }

  lemma EndTextRead(p: Parse, ls: seq<Line>, e: End)
    requires AllLegalLines(ls) && LegalEnding(e) && LineStart(p, "", LinesText(ls) + EndText(e), Held(0, false))
    ensures OutcomeOf(ParseAll(p)) == Ended(PerformAll(OutcomeOf(p), ls), e)
  {
    ParseAllUnrolls();
    var q, ws, h := LinesRead(ParseAll, p, "", ls, EndText(e), Held(0, false));
    EndRead(q, ws, e, h);
  }

  /** A file of any written lines and such an end makes the callbacks and the configuration of the lines,
      and of a last value. Whatever else comes in the last line, or after it, is not reported. */
  lemma EndsRoundTrip(ls: seq<Line>, e: End, fd: Source)
    requires AllLegalLines(ls) && LegalEnding(e)
    requires SourceOk(fd) && NeverShorter(fd) && RestsAtShort(FRESH, fd) && Concat(fd) == LinesText(ls) + EndText(e)
    ensures OutcomeOf(Parsed(fd)) == Ended(PerformAll(BEGIN, ls), e)
  {
    LinesNulFree(ls);
    EndNulFree(e);
    ReadsNulFree(fd);
    ParsedAsOneText(fd);
    var p := Parse(WholeScan(fd), Ok, [], NOTHING);
    TextBegins(p, LinesText(ls) + EndText(e));
    EndTextRead(p, ls, e);
  }
}
