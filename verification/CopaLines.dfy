/** Configuration text, line by line: how settings, blocks and comments are written, and that the
    parser reads each back. */
module CopaLines {
  import opened Common
  import opened CopaParse
  import opened CopaScan
  import opened CopaText

  /** How a value is written: in quotes, or bare, up to the end of the line or a comment. */
  datatype Wording = Quoted(quote: char, text: seq<Piece>) | Bare(text: seq<Piece>, remark: Option<seq<Piece>>)

  /** Name and value are separated by blanks, which may be line ends. */
  datatype Setting = Setting(name: seq<Piece>, blank: string, value: Wording)

  predicate Free(s: string, classes: set<Class>) {
    forall i | 0 <= i < |s| :: !In(s[i], classes)
  }

  predicate AllSpace(ws: string) {
    forall i | 0 <= i < |ws| :: IsSpace(ws[i])
  }

  /** The first character can be looked at without losing the one after it: PeekKeepsExactly. */
  predicate Settled(ps: seq<Piece>) {
    ps != [] && (Short(ps[0]) ==> |ps| > 1 && Written(ps[1])[0] == BACKSLASH)
  }

  /** A name has no blanks and no '#', and cannot be taken for a tag. */
  predicate LegalName(ps: seq<Piece>) {
    AllLegal(ps) && Settled(ps) && Free(Values(ps), {Whitespace, Comment}) && Value(ps[0]) != '<'
  }

  predicate LegalBlank(blank: string) {
    blank != [] && AllSpace(blank)
  }

  predicate LegalRemark(ps: seq<Piece>) {
    AllLegal(ps) && Free(Values(ps), {Newline})
  }

  /** A quoted value does not contain its quote, however it is spelled; a bare one does not
      start like a blank or a quote and does not contain '#' or a line end. */
  predicate LegalWording(w: Wording) {
    AllLegal(w.text) &&
    match w
    case Quoted(q, ps) => (q == '"' || q == '\'') && q !in Values(ps)
    case Bare(ps, remark) =>
      && Settled(ps) && !In(Value(ps[0]), {Whitespace, DQuote, SQuote}) && Free(Values(ps), {Comment, Newline})
      && (remark.Some? ==> LegalRemark(remark.value))
  }

  /** The name in an end tag has no '>', '#' or line end. */
  predicate LegalEnd(ps: seq<Piece>) {
    AllLegal(ps) && Free(Values(ps), {RBracket, Comment, Newline})
  }

  /** In a start tag it cannot be taken for that of an end tag, either. */
  predicate LegalStart(ps: seq<Piece>) {
    LegalEnd(ps) && (ps != [] ==> Settled(ps) && Value(ps[0]) != '/')
  }

  predicate LegalSetting(st: Setting) {
    LegalName(st.name) && LegalBlank(st.blank) && LegalWording(st.value)
  }

  function RemarkText(ps: seq<Piece>): string {
    "#" + (Text(ps) + "\n")
  }

  function WordingText(w: Wording): string {
    match w
    case Quoted(q, ps) => [q] + (Text(ps) + [q])
    case Bare(ps, remark) => Text(ps) + if remark.Some? then RemarkText(remark.value) else "\n"
  }

  function SettingText(st: Setting): string {
    Text(st.name) + (st.blank + WordingText(st.value))
  }

  function StartTag(name: seq<Piece>): string {
    "<" + (Text(name) + ">")
  }

  function EndTag(name: seq<Piece>): string {
    "</" + (Text(name) + ">")
  }

  // ------------------------------------------------------------------ scanning pieces

  /** Nothing is pushed back, so that something may be. */
  predicate Clear(text: string, h: Held) {
    At(text, h).mode.pushback == NUL
  }

  /** c is pushed back and the text goes on with ps and then tail. */
  function Mid(c: char, ps: seq<Piece>, tail: string, h: Held): Scan {
    PushBack(At(Text(ps) + tail, h), c)
  }

  lemma TextThen(ps: seq<Piece>, z: char, tail: string, h: Held) returns (h': Held)
    requires AllLegal(ps) && EndsEscapes(z)
    ensures Yields(At(Text(ps) + ([z] + tail), h), Values(ps) + [z], At(tail, h')) && !h'.ahead
  {
    if ps != [] {
      StopEnds(ps[|ps| - 1], z, tail);
    }
    var g := TextYields(ps, [z] + tail, h);
    h' := PieceYields(Plain(z), tail, g);
    YieldsOne(At([z] + tail, g), z, At(tail, h'));
    YieldsThen(At(Text(ps) + ([z] + tail), h), Values(ps), At([z] + tail, g), [z], At(tail, h'));
  }

  lemma MidYields(c: char, ps: seq<Piece>, z: char, tail: string, h: Held) returns (h': Held)
    requires AllLegal(ps) && c != NUL && c != EOF && EndsEscapes(z) && Clear(Text(ps) + ([z] + tail), h)
    ensures Yields(Mid(c, ps, [z] + tail, h), [c] + Values(ps) + [z], At(tail, h')) && !h'.ahead
  {
    h' := TextThen(ps, z, tail, h);
    YieldsPushed(At(Text(ps) + ([z] + tail), h), c, Values(ps) + [z], At(tail, h'));
    Assoc([c], Values(ps), [z]);
  }

  /** A character pushed back in front of a text is as one of the text that has been taken. */
  lemma PushedIsTaken(c: char, rest: string, h: Held)
    requires c != BACKSLASH && !h.ahead
    ensures PushBack(At(rest, h), c) == At([c] + rest, Held(h.number, true))
  {
    assert ([c] + rest)[1..] == rest;
  }

  lemma {:induction false} BlankYields(ws: string, rest: string, h: Held) returns (h': Held)
    requires AllSpace(ws)
    ensures Yields(At(ws + rest, h), ws, At(rest, h')) && (if ws == [] then h' == h else !h'.ahead)
    decreases |ws|
  {
    if ws == [] {
      assert ws + rest == rest;
      h' := h;
    } else {
      var more := ws[1..] + rest;
      Uncons(ws);
      Assoc([ws[0]], ws[1..], rest);
      PlainYields(ws[0], more, h);
      h' := BlankYields(ws[1..], rest, Held(h.number, false));
      YieldsCons(At([ws[0]] + more, h), ws[0], At(more, Held(h.number, false)), ws[1..], At(rest, h'));
    }
  }

  lemma StartsAs(ps: seq<Piece>, tail: string)
    requires ps != []
    ensures Text(ps) + tail != [] && (Text(ps) + tail)[0] == Written(ps[0])[0]
  {
    TextCons(ps, tail);
  }

  lemma SettledIsClear(ps: seq<Piece>, tail: string, h: Held)
    requires Settled(ps) && h.ahead == Short(ps[0])
    ensures Clear(Text(ps[1..]) + tail, h)
  {
    if h.ahead {
      assert ps[1..][0] == ps[1];
      StartsAs(ps[1..], tail);
    }
  }

  /** Skipping blanks and looking ahead finds the first character of what follows them. */
  lemma SkipBlanks(s: Scan, ws: string, ps: seq<Piece>, tail: string, h: Held) returns (g: Held)
    requires s.active && AllSpace(ws) && Yields(s, ws, At(Text(ps) + tail, h))
    requires Followed(ps, tail) && Settled(ps) && !IsSpace(Value(ps[0]))
    ensures Peek(SkipOver(s, {Whitespace})) == (Mid(Value(ps[0]), ps[1..], tail, g), Value(ps[0]))
    ensures AllLegal(ps[1..]) && Clear(Text(ps[1..]) + tail, g)
  {
    var rest, c := Text(ps[1..]) + tail, Value(ps[0]);
    TextCons(ps, tail);
    FollowedTail(ps, tail);
    g := PieceYields(ps[0], rest, h);
    YieldsOne(At(Text(ps) + tail, h), c, At(rest, g));
    YieldsThen(s, ws, At(Text(ps) + tail, h), [c], At(rest, g));
    SkipYields(s, ws, c, At(rest, g), {Whitespace}, true);
    SettledIsClear(ps, tail, g);
  }

  /** The rest of a name, after its first character. */
  lemma NameSlurped(c: char, ps: seq<Piece>, blank: string, tail: string, h: Held) returns (g: Held)
    requires AllLegal(ps) && LegalBlank(blank) && Clear(Text(ps) + (blank + tail), h)
    requires c != NUL && c != EOF && Free([c] + Values(ps), {Whitespace, Comment})
    ensures SlurpTo(Mid(c, ps, blank + tail, h), {Whitespace}, {Comment, Newline})
         == (At(blank + tail, g), Some([c] + Values(ps)))
  {
    var z, rest, name := blank[0], blank[1..] + tail, [c] + Values(ps);
    assert blank + tail == [z] + rest;
    g := MidYields(c, ps, z, rest, h);
    SlurpYields(Mid(c, ps, blank + tail, h), name, z, At(rest, g), {Whitespace}, {Comment, Newline}, []);
    assert [] + name == name;
    PushedIsTaken(z, rest, g);
    g := Held(g.number, true);
  }

  lemma QuotedSlurped(q: char, ps: seq<Piece>, tail: string, h: Held) returns (g: Held)
    requires LegalWording(Quoted(q, ps)) && Clear(Text(ps) + ([q] + tail), h)
    ensures SlurpQuoted(Mid(q, ps, [q] + tail, h)) == (At(tail, g), Some(Values(ps)))
  {
    var t := At(Text(ps) + ([q] + tail), h);
    assert Next(Mid(q, ps, [q] + tail, h)) == (t, q);
    g := TextThen(ps, q, tail, h);
    var quote := if In(q, {SQuote}) then {SQuote} else {DQuote};
    SlurpYields(t, Values(ps), q, At(tail, g), quote, {}, []);
    assert [] + Values(ps) == Values(ps);
  }

  /** A bare value up to a line end or the start of a comment. */
  lemma BareSlurped(ps: seq<Piece>, z: char, tail: string, h: Held) returns (g: Held)
    requires ps != [] && AllLegal(ps) && Free(Values(ps), {Comment, Newline}) && (z == '\n' || z == '#')
    requires Clear(Text(ps[1..]) + ([z] + tail), h)
    ensures SlurpTo(Mid(Value(ps[0]), ps[1..], [z] + tail, h), {Comment, Newline}, {})
         == (At([z] + tail, g), Some(Values(ps)))
  {
    assert ps == [ps[0]] + ps[1..];
    LegalCons(ps[0], ps[1..]);
    g := MidYields(Value(ps[0]), ps[1..], z, tail, h);
    SlurpYields(Mid(Value(ps[0]), ps[1..], [z] + tail, h), Values(ps), z, At(tail, g), {Comment, Newline}, {}, []);
    assert [] + Values(ps) == Values(ps);
    PushedIsTaken(z, tail, g);
    g := Held(g.number, true);
  }

  // ------------------------------------------------------------------ lines

  /** p is about to read these blanks and then `rest`. */
  predicate LineStart(p: Parse, ws: string, rest: string, h: Held) {
    AllSpace(ws) && p.scan == At(ws + rest, h)
  }

  /** What the first character of a line is. */
  lemma FirstOfLine(ws: string, ps: seq<Piece>, tail: string, h: Held) returns (g: Held)
    requires AllSpace(ws) && Followed(ps, tail) && Settled(ps) && !IsSpace(Value(ps[0]))
    ensures Peek(SkipOver(At(ws + (Text(ps) + tail), h), {Whitespace}))
         == (Mid(Value(ps[0]), ps[1..], tail, g), Value(ps[0]))
    ensures AllLegal(ps[1..]) && Clear(Text(ps[1..]) + tail, g)
  {
    var k := BlankYields(ws, Text(ps) + tail, h);
    g := SkipBlanks(At(ws + (Text(ps) + tail), h), ws, ps, tail, k);
  }

  lemma QuotedScanned(blank: string, q: char, ps: seq<Piece>, rest: string, h: Held) returns (g: Held)
    requires AllSpace(blank) && LegalWording(Quoted(q, ps))
    ensures ScanValue(At(blank + (WordingText(Quoted(q, ps)) + rest), h)) == (At(rest, g), Some(Values(ps)))
  {
    var tail := Text(ps) + ([q] + rest);
    assert Text([Plain(q)]) + tail == WordingText(Quoted(q, ps)) + rest;
    assert Text([]) + tail == tail;
    var j := FirstOfLine(blank, [Plain(q)], tail, h);
    g := QuotedSlurped(q, ps, rest, j);
  }

  /** Where the text after a bare value starts. */
  function BareEnd(w: Wording, rest: string): string
    requires w.Bare?
  {
    (if w.remark.Some? then RemarkText(w.remark.value) else "\n") + rest
  }

  lemma BareScanned(blank: string, w: Wording, rest: string, h: Held) returns (g: Held)
    requires AllSpace(blank) && w.Bare? && LegalWording(w)
    ensures ScanValue(At(blank + (WordingText(w) + rest), h)) == (At(BareEnd(w, rest), g), Some(Values(w.text)))
  {
    var ps, end := w.text, BareEnd(w, rest);
    var z, tail := end[0], end[1..];
    assert end == [z] + tail && (z == '\n' || z == '#');
    assert WordingText(w) + rest == Text(ps) + end;
    StopEnds(ps[|ps| - 1], z, tail);
    var j := FirstOfLine(blank, ps, end, h);
    g := BareSlurped(ps, z, tail, j);
  }

  /** What is left in front of the rest of the file after the callback of a setting. */
  function Behind(w: Wording, rest: string): string {
    if w.Quoted? then rest else BareEnd(w, rest)
  }

  lemma WordingScanned(blank: string, w: Wording, rest: string, h: Held) returns (g: Held)
    requires AllSpace(blank) && LegalWording(w)
    ensures ScanValue(At(blank + (WordingText(w) + rest), h)) == (At(Behind(w, rest), g), Some(Values(w.text)))
  {
    match w {
      case Quoted(q, ps) => g := QuotedScanned(blank, q, ps, rest, h);
      case Bare(_, _) => g := BareScanned(blank, w, rest, h);
    }
  }

  /** The scanning of one setting, from the state in which its first character is pushed back. */
  lemma SettingScanned(c: char, ps: seq<Piece>, blank: string, w: Wording, rest: string, h: Held) returns (g: Held)
    requires AllLegal(ps) && LegalBlank(blank) && LegalWording(w)
    requires Clear(Text(ps) + (blank + (WordingText(w) + rest)), h)
    requires c != NUL && c != EOF && Free([c] + Values(ps), {Whitespace, Comment})
    ensures ScanAssignment(Mid(c, ps, blank + (WordingText(w) + rest), h))
         == (At(Behind(w, rest), g), Some(([c] + Values(ps), Values(w.text))))
  {
    var k := NameSlurped(c, ps, blank, WordingText(w) + rest, h);
    g := WordingScanned(blank, w, rest, k);
  }

  /** A line that begins so is not a comment or a tag. */
  lemma AssignmentBegins(p: Parse, s: Scan, c: char)
    requires Peek(SkipOver(p.scan, {Whitespace})) == (s, c) && !In(c, {Comment, LBracket})
    ensures ParseLine(p) == ParseAssignment(p.(scan := s))
  {
  }

  lemma SettingSplits(st: Setting, rest: string)
    ensures SettingText(st) + rest == Text(st.name) + (st.blank + (WordingText(st.value) + rest))
  {
  }

  lemma BlankEnds(ps: seq<Piece>, blank: string, rest: string)
    requires AllLegal(ps) && LegalBlank(blank)
    ensures Followed(ps, blank + rest)
  {
    if ps != [] {
      StopEnds(ps[|ps| - 1], blank[0], blank[1..] + rest);
      assert blank + rest == [blank[0]] + (blank[1..] + rest);
    }
  }

  lemma SettingBegins(p: Parse, ws: string, st: Setting, rest: string, h: Held) returns (g: Held)
    requires LegalSetting(st) && LineStart(p, ws, SettingText(st) + rest, h)
    ensures var tail := st.blank + (WordingText(st.value) + rest);
            && ParseLine(p) == ParseAssignment(p.(scan := Mid(Value(st.name[0]), st.name[1..], tail, g)))
            && AllLegal(st.name[1..]) && Clear(Text(st.name[1..]) + tail, g)
  {
    var tail := st.blank + (WordingText(st.value) + rest);
    SettingSplits(st, rest);
    assert !In(Values(st.name)[0], {Whitespace, Comment});
    BlankEnds(st.name, st.blank, WordingText(st.value) + rest);
    g := FirstOfLine(ws, st.name, tail, h);
    AssignmentBegins(p, Mid(Value(st.name[0]), st.name[1..], tail, g), Value(st.name[0]));
  }

  /** One written setting is one assignment reported. */
  lemma SettingLine(p: Parse, ws: string, st: Setting, rest: string, h: Held) returns (q: Parse, g: Held)
    requires LegalSetting(st) && LineStart(p, ws, SettingText(st) + rest, h)
    ensures q == ParseLine(p) && q.scan == At(Behind(st.value, rest), g)
    ensures q == ReportAssignment(p.(scan := q.scan), Values(st.name), Values(st.value.text))
  {
    var k := SettingBegins(p, ws, st, rest, h);
    assert Legal(st.name[0]);
    g := SettingScanned(Value(st.name[0]), st.name[1..], st.blank, st.value, rest, k);
    q := ParseLine(p);
  }

  /** Of a name that starts with a short escape, ended by any character but a backslash, that character
      is lost: the look at the start of the line takes its place. */
  lemma SecondIsLost(p: Parse, ws: string, e: Piece, z: char, st: Setting, rest: string, h: Held)
    returns (q: Parse, g: Held)
    requires LegalBlank(st.blank) && LegalWording(st.value)
    requires Legal(e) && Short(e) && !Continues(e, z) && Legal(Plain(z)) && AllLegal(st.name)
    requires Value(e) != '<' && Free([Value(e)] + Values(st.name), {Whitespace, Comment})
    requires LineStart(p, ws, Written(e) + ([z] + (SettingText(st) + rest)), h)
    ensures q == ParseLine(p) && q.scan == At(Behind(st.value, rest), g)
    ensures q == ReportAssignment(p.(scan := q.scan), [Value(e)] + Values(st.name), Values(st.value.text))
  {
    var text, tail := SettingText(st) + rest, st.blank + (WordingText(st.value) + rest);
    SettingSplits(st, rest);
    var j := BlankYields(ws, Written(e) + ([z] + text), h);
    var k := PieceYields(e, [z] + text, j);
    YieldsOne(At(Written(e) + ([z] + text), j), Value(e), At([z] + text, k));
    YieldsThen(p.scan, ws, At(Written(e) + ([z] + text), j), [Value(e)], At([z] + text, k));
    assert !In(([Value(e)] + Values(st.name))[0], {Whitespace, Comment});
    SkipYields(p.scan, ws, Value(e), At([z] + text, k), {Whitespace}, true);
    k := Held(k.number, false);
    assert ([z] + text)[1..] == text;
    AssignmentBegins(p, Mid(Value(e), st.name, tail, k), Value(e));
    g := SettingScanned(Value(e), st.name, st.blank, st.value, rest, k);
    q := ParseLine(p);
  }

  // ------------------------------------------------------------------ comments

  lemma RemarkSplits(ps: seq<Piece>, rest: string)
    ensures RemarkText(ps) + rest == Text([Plain('#')] + ps) + ("\n" + rest)
  {
    assert ([Plain('#')] + ps)[1..] == ps;
  }

  /** A comment is passed over up to its line end, and changes nothing. */
  lemma RemarkLine(p: Parse, ws: string, ps: seq<Piece>, rest: string, h: Held) returns (q: Parse, g: Held)
    requires LegalRemark(ps) && LineStart(p, ws, RemarkText(ps) + rest, h)
    ensures q == ParseLine(p) && q == p.(scan := At("\n" + rest, g))
  {
    var all := [Plain('#')] + ps;
    RemarkSplits(ps, rest);
    LegalCons(Plain('#'), ps);
    StopEnds(all[|all| - 1], '\n', rest);
    var k := FirstOfLine(ws, all, "\n" + rest, h);
    assert all[1..] == ps;
    g := RemarkSkipped(ps, rest, k);
    q := ParseLine(p);
  }

  lemma RemarkSkipped(ps: seq<Piece>, rest: string, h: Held) returns (g: Held)
    requires LegalRemark(ps) && Clear(Text(ps) + ("\n" + rest), h)
    ensures SkipTo(Mid('#', ps, "\n" + rest, h), {Newline}) == At("\n" + rest, g)
  {
    g := MidYields('#', ps, '\n', rest, h);
    SkipYields(Mid('#', ps, "\n" + rest, h), ['#'] + Values(ps), '\n', At(rest, g), {Newline}, false);
    PushedIsTaken('\n', rest, g);
    g := Held(g.number, true);
  }

  // ------------------------------------------------------------------ tags

  lemma BracketSlurped(s: Scan, name: seq<Piece>, rest: string, h: Held)
    requires s.active && LegalEnd(name) && Yields(s, Values(name) + ['>'], At(rest, h)) && !h.ahead
    ensures SlurpTo(s, {RBracket}, {Comment, Newline}) == (PushBack(At(rest, h), '>'), Some(Values(name)))
    ensures Expect(PushBack(At(rest, h), '>'), {RBracket}) == (At(rest, h), true)
  {
    SlurpYields(s, Values(name), '>', At(rest, h), {RBracket}, {Comment, Newline}, []);
    assert [] + Values(name) == Values(name);
  }

  lemma NameToBracket(s: Scan, name: seq<Piece>, rest: string, h: Held) returns (g: Held)
    requires s == At(Text(name) + (">" + rest), h) && LegalEnd(name)
    ensures !g.ahead && SlurpTo(s, {RBracket}, {Comment, Newline}) == (PushBack(At(rest, g), '>'), Some(Values(name)))
    ensures Expect(PushBack(At(rest, g), '>'), {RBracket}) == (At(rest, g), true)
  {
    g := TextThen(name, '>', rest, h);
    BracketSlurped(s, name, rest, g);
  }

  lemma EndTagScanned(name: seq<Piece>, rest: string, h: Held) returns (g: Held)
    requires LegalEnd(name) && Clear("/" + (Text(name) + (">" + rest)), h)
    ensures ScanBlock(PushBack(At("/" + (Text(name) + (">" + rest)), h), '<'))
         == (At(rest, g), Some((true, Values(name))))
  {
    var tail := Text(name) + (">" + rest);
    var s1 := At("/" + tail, h);
    assert Next(PushBack(s1, '<')) == (s1, '<');
    var k := PieceYields(Plain('/'), tail, h);
    g := NameToBracket(At(tail, k), name, rest, k);
  }

  /** A start tag, from the state after its '<'. */
  lemma StartTagIs(s1: Scan, s2: Scan, c: char, s4: Scan, name: string, s5: Scan)
    requires s1.mode.pushback == NUL && Peek(s1) == (s2, c) && !In(c, {Slash})
    requires SlurpTo(s2, {RBracket}, {Comment, Newline}) == (s4, Some(name))
    requires Expect(s4, {RBracket}) == (s5, true)
    ensures ScanBlock(PushBack(s1, '<')) == (s5, Some((false, name)))
  {
    assert Expect(PushBack(s1, '<'), {LBracket}) == (s1, true);
  }

  lemma NamelessTagScanned(rest: string, h: Held) returns (g: Held)
    requires Clear(">" + rest, h)
    ensures ScanBlock(PushBack(At(">" + rest, h), '<')) == (At(rest, g), Some((false, [])))
  {
    g := PieceYields(Plain('>'), rest, h);
    YieldsPushed(At(rest, g), '>', [], At(rest, g));
    assert ['>'] + [] == [] + ['>'];
    BracketSlurped(PushBack(At(rest, g), '>'), [], rest, g);
    StartTagIs(At(">" + rest, h), PushBack(At(rest, g), '>'), '>', PushBack(At(rest, g), '>'), [], At(rest, g));
  }

  lemma StartTagScanned(name: seq<Piece>, rest: string, h: Held) returns (g: Held)
    requires LegalStart(name) && name != [] && Clear(Text(name) + (">" + rest), h)
    ensures ScanBlock(Mid('<', name, ">" + rest, h)) == (At(rest, g), Some((false, Values(name))))
  {
    var tail := ">" + rest;
    TextCons(name, tail);
    StopEnds(name[|name| - 1], '>', rest);
    FollowedTail(name, tail);
    var k := PieceYields(name[0], Text(name[1..]) + tail, h);
    SettledIsClear(name, tail, k);
    g := MidYields(Value(name[0]), name[1..], '>', rest, k);
    var s := Mid(Value(name[0]), name[1..], tail, k);
    BracketSlurped(s, name, rest, g);
    StartTagIs(At(Text(name) + tail, h), s, Value(name[0]), PushBack(At(rest, g), '>'), Values(name), At(rest, g));
  }

  lemma StartScanned(name: seq<Piece>, rest: string, h: Held) returns (g: Held)
    requires LegalStart(name) && Clear(Text(name) + (">" + rest), h)
    ensures ScanBlock(Mid('<', name, ">" + rest, h)) == (At(rest, g), Some((false, Values(name))))
  {
    if name == [] {
      assert Text([]) + (">" + rest) == ">" + rest;
      g := NamelessTagScanned(rest, h);
    } else {
      g := StartTagScanned(name, rest, h);
    }
  }

  lemma BlockBegins(p: Parse, ws: string, rest: string, h: Held) returns (g: Held)
    requires LineStart(p, ws, "<" + rest, h)
    ensures ParseLine(p) == ParseBlock(p.(scan := PushBack(At(rest, g), '<'))) && Clear(rest, g)
  {
    assert Text([Plain('<')]) + rest == "<" + rest && Text([]) + rest == rest;
    g := FirstOfLine(ws, [Plain('<')], rest, h);
  }

  lemma BlockIsReported(p: Parse, s: Scan, t: Scan, end: bool, name: string)
    requires ScanBlock(s) == (t, Some((end, name)))
    ensures ParseBlock(p.(scan := s)) == ReportBlock(p.(scan := t), end, name)
    ensures ReportBlock(p.(scan := t), end, name).scan == t
  {
  }

  /** One written start tag is one block callback. */
  lemma StartLine(p: Parse, ws: string, name: seq<Piece>, rest: string, h: Held) returns (q: Parse, g: Held)
    requires LegalStart(name) && LineStart(p, ws, StartTag(name) + rest, h)
    ensures q == ParseLine(p) && q == ReportBlock(p.(scan := At(rest, g)), false, Values(name)) && q.scan == At(rest, g)
  {
    assert StartTag(name) + rest == "<" + (Text(name) + (">" + rest));
    var k := BlockBegins(p, ws, Text(name) + (">" + rest), h);
    g := StartScanned(name, rest, k);
    q := ParseLine(p);
    BlockIsReported(p, Mid('<', name, ">" + rest, k), At(rest, g), false, Values(name));
  }

  /** One written end tag is one block callback. */
  lemma EndLine(p: Parse, ws: string, name: seq<Piece>, rest: string, h: Held) returns (q: Parse, g: Held)
    requires LegalEnd(name) && LineStart(p, ws, EndTag(name) + rest, h)
    ensures q == ParseLine(p) && q == ReportBlock(p.(scan := At(rest, g)), true, Values(name)) && q.scan == At(rest, g)
  {
    var tail := "/" + (Text(name) + (">" + rest));
    assert EndTag(name) + rest == "<" + tail;
    var k := BlockBegins(p, ws, tail, h);
    g := EndTagScanned(name, rest, k);
    q := ParseLine(p);
    BlockIsReported(p, PushBack(At(tail, k), '<'), At(rest, g), true, Values(name));
  }
}
