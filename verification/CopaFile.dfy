/** Files of written lines, with blocks opened and closed in any order: what is read back from them. */
module CopaFile {
  import opened CfgRead
  import opened Common
  import opened CopaLines
  import opened CopaParse
  import opened CopaParser
  import opened CopaReads
  import opened CopaScan
  import opened CopaScanner
  import opened CopaText

  /** A line, or less: tags and quoted values need no line end after them. Blanks are line ends and
      the white space around the other lines. */
  datatype Line =
    | Assigning(setting: Setting)
    | Starting(name: seq<Piece>)
    | Ending(name: seq<Piece>)
    | Remark(text: seq<Piece>)
    | Blank(ws: string)

  predicate LegalLine(l: Line) {
    match l
    case Assigning(st) => LegalSetting(st)
    case Starting(name) => LegalStart(name)
    case Ending(name) => LegalEnd(name)
    case Remark(text) => LegalRemark(text)
    case Blank(ws) => AllSpace(ws)
  }

  predicate AllLegalLines(ls: seq<Line>) {
    forall i | 0 <= i < |ls| :: LegalLine(ls[i])
  }

  function LineText(l: Line): string {
    match l
    case Assigning(st) => SettingText(st)
    case Starting(name) => StartTag(name)
    case Ending(name) => EndTag(name)
    case Remark(text) => RemarkText(text)
    case Blank(ws) => ws
  }

  function LinesText(ls: seq<Line>): string {
    if ls == [] then [] else LineText(ls[0]) + LinesText(ls[1..])
  }

  // What the lines mean, said without the parser.

  /** The status the last block callback returned, all callbacks made, and what they have built. */
  datatype Outcome = Outcome(status: Status, events: seq<Event>, config: Config)

  const BEGIN := Outcome(Ok, [], NOTHING)

  function AssignedBy(st: Setting): Event {
    Assigned(Values(st.name), Values(st.value.text))
  }

  /** One line. Assignments are reported only while the status is COPA_OK; tags always are. */
  function Perform(o: Outcome, l: Line): Outcome {
    match l
    case Assigning(st) =>
      if o.status != Ok then o
      else Outcome(Ok, o.events + [AssignedBy(st)], Assign(o.config, Values(st.name), Values(st.value.text)))
    case Starting(name) =>
      var (config, status) := BlockStart(o.config, Values(name));
      Outcome(status, o.events + [Started(Values(name))], config)
    case Ending(name) =>
      var (config, status) := BlockEnd(o.config, Values(name));
      Outcome(status, o.events + [Ended(Values(name))], config)
    case _ => o
  }

  function PerformAll(o: Outcome, ls: seq<Line>): Outcome
    decreases |ls|
  {
    if ls == [] then o else PerformAll(Perform(o, ls[0]), ls[1..])
  }

  lemma {:induction false} PerformConcat(o: Outcome, a: seq<Line>, b: seq<Line>)
    ensures PerformAll(o, a + b) == PerformAll(PerformAll(o, a), b)
    decreases |a|
  {
    if a == [] {
      assert a + b == b;
    } else {
      assert (a + b)[1..] == a[1..] + b;
      PerformConcat(Perform(o, a[0]), a[1..], b);
    }
  }

  // ------------------------------------------------------------------ reading the lines back

  /** run(p) is what parsing comes to from p on, however that is worked out: one more line read
      does not change it. ParseAll is such a function; the lemmas below need no more of it. */
  ghost predicate RunsLines(run: Parse -> Parse) {
    forall p :: Unrolls(run, p)
  }

  ghost predicate Unrolls(run: Parse -> Parse, p: Parse) {
    p.scan.active ==> run(p) == run(ParseLine(p))
  }

  function OutcomeOf(p: Parse): Outcome {
    Outcome(p.status, p.events, p.config)
  }

  lemma CommentStep(run: Parse -> Parse, p: Parse, ws: string, text: seq<Piece>, rest: string, h: Held)
    returns (q: Parse, g: Held)
    requires RunsLines(run) && LegalRemark(text) && LineStart(p, ws, RemarkText(text) + rest, h)
    ensures run(p) == run(q) && LineStart(q, "\n", rest, g) && OutcomeOf(q) == OutcomeOf(p)
  {
    q, g := RemarkLine(p, ws, text, rest, h);
    assert Unrolls(run, p);
  }

  /** A setting, with the comment that may follow a bare value. */
  lemma SettingStep(run: Parse -> Parse, p: Parse, ws: string, st: Setting, rest: string, h: Held)
    returns (q: Parse, ws': string, g: Held)
    requires RunsLines(run) && LegalSetting(st) && LineStart(p, ws, SettingText(st) + rest, h)
    ensures run(p) == run(q) && LineStart(q, ws', rest, g)
    ensures OutcomeOf(q) == Perform(OutcomeOf(p), Assigning(st))
  {
    var w := st.value;
    q, g := SettingLine(p, ws, st, rest, h);
    assert Unrolls(run, p);
    ws' := if w.Quoted? then "" else "\n";
    if w.Quoted? {
      assert "" + rest == rest;
    } else if w.remark.Some? {
      assert "" + (RemarkText(w.remark.value) + rest) == BareEnd(w, rest);
      q, g := CommentStep(run, q, "", w.remark.value, rest, g);
    }
  }

  lemma StartStep(run: Parse -> Parse, p: Parse, ws: string, name: seq<Piece>, rest: string, h: Held)
    returns (q: Parse, g: Held)
    requires RunsLines(run) && LegalStart(name) && LineStart(p, ws, StartTag(name) + rest, h)
    ensures run(p) == run(q) && LineStart(q, "", rest, g) && OutcomeOf(q) == Perform(OutcomeOf(p), Starting(name))
  {
    q, g := StartLine(p, ws, name, rest, h);
    assert Unrolls(run, p) && "" + rest == rest;
  }

  lemma EndStep(run: Parse -> Parse, p: Parse, ws: string, name: seq<Piece>, rest: string, h: Held)
    returns (q: Parse, g: Held)
    requires RunsLines(run) && LegalEnd(name) && LineStart(p, ws, EndTag(name) + rest, h)
    ensures run(p) == run(q) && LineStart(q, "", rest, g) && OutcomeOf(q) == Perform(OutcomeOf(p), Ending(name))
  {
    q, g := EndLine(p, ws, name, rest, h);
    assert Unrolls(run, p) && "" + rest == rest;
  }

  lemma BlankStep(p: Parse, ws: string, more: string, rest: string, h: Held)
    requires AllSpace(more) && LineStart(p, ws, more + rest, h)
    ensures LineStart(p, ws + more, rest, h)
  {
    Assoc(ws, more, rest);
  }

  /** One line, whatever it is. */
  lemma LineRead(run: Parse -> Parse, p: Parse, ws: string, l: Line, rest: string, h: Held)
    returns (q: Parse, ws': string, g: Held)
    requires RunsLines(run) && LegalLine(l) && LineStart(p, ws, LineText(l) + rest, h)
    ensures run(p) == run(q) && LineStart(q, ws', rest, g)
    ensures OutcomeOf(q) == Perform(OutcomeOf(p), l)
  {
    ws' := "";
    match l {
      case Assigning(st) => q, ws', g := SettingStep(run, p, ws, st, rest, h);
      case Starting(name) => q, g := StartStep(run, p, ws, name, rest, h);
      case Ending(name) => q, g := EndStep(run, p, ws, name, rest, h);
      case Remark(text) =>
        q, g := CommentStep(run, p, ws, text, rest, h);
        ws' := "\n";
      case Blank(more) =>
        BlankStep(p, ws, more, rest, h);
        q, ws', g := p, ws + more, h;
    }
  }

  lemma {:induction false} LinesRead(run: Parse -> Parse, p: Parse, ws: string, ls: seq<Line>, rest: string, h: Held)
    returns (q: Parse, ws': string, g: Held)
    requires RunsLines(run) && AllLegalLines(ls) && LineStart(p, ws, LinesText(ls) + rest, h)
    ensures run(p) == run(q) && LineStart(q, ws', rest, g)
    ensures OutcomeOf(q) == PerformAll(OutcomeOf(p), ls)
    decreases |ls|
  {
    if ls == [] {
      assert LinesText(ls) + rest == rest;
      q, ws', g := p, ws, h;
    } else {
      Assoc(LineText(ls[0]), LinesText(ls[1..]), rest);
      var p1, ws1, k := LineRead(run, p, ws, ls[0], LinesText(ls[1..]) + rest, h);
      q, ws', g := LinesRead(run, p1, ws1, ls[1..], rest, k);
    }
  }

  lemma {:induction false} SkipToEnd(s: Scan, ws: string, h: Held)
    requires AllSpace(ws) && Yields(s, ws, At([], h))
    ensures Skip(s, {Whitespace}, true) == At([], h).(active := false)
    decreases |ws|
  {
    if ws == [] {
    } else {
      SkipToEnd(Next(s).0, ws[1..], h);
    }
  }

  function Newlines(k: nat): string {
    seq(k, i => '\n')
  }

  /** Only white space is left: the parse ends, and nothing more is reported. */
  lemma EndOfFile(p: Parse, ws: string, k: nat, h: Held)
    requires LineStart(p, ws, Newlines(k), h)
    ensures OutcomeOf(ParseAll(p)) == OutcomeOf(p)
  {
    var all := ws + Newlines(k);
    assert all + [] == all;
    var g := BlankYields(all, [], h);
    SkipToEnd(p.scan, all, g);
    var end := At([], g).(active := false);
    assert Peek(end) == (end, EOF);
    assert ParseLine(p) == p.(scan := end);
  }

  lemma ParseAllUnrolls()
    ensures RunsLines(ParseAll)
  {
    forall p: Parse ensures Unrolls(ParseAll, p) {
    }
  }

  lemma TextBegins(p: Parse, text: string)
    requires p.scan == Scan(text, FRESH, true)
    ensures LineStart(p, "", text, Held(0, false))
  {
    assert "" + text == text;
  }

  /** A written text and line ends, as one text. */
  lemma TextRead(ls: seq<Line>, k: nat)
    requires AllLegalLines(ls)
    ensures var q := ParseAll(Parse(Scan(LinesText(ls) + Newlines(k), FRESH, true), Ok, [], NOTHING));
            OutcomeOf(q) == PerformAll(BEGIN, ls)
  {
    var p := Parse(Scan(LinesText(ls) + Newlines(k), FRESH, true), Ok, [], NOTHING);
    TextBegins(p, LinesText(ls) + Newlines(k));
    TextReadFrom(p, ls, k);
  }

  lemma TextReadFrom(p: Parse, ls: seq<Line>, k: nat)
    requires AllLegalLines(ls) && LineStart(p, "", LinesText(ls) + Newlines(k), Held(0, false))
    ensures OutcomeOf(ParseAll(p)) == PerformAll(OutcomeOf(p), ls)
  {
    ParseAllUnrolls();
    var q, ws, h := LinesRead(ParseAll, p, "", ls, Newlines(k), Held(0, false));
    EndOfFile(q, ws, k, h);
  }

  // ------------------------------------------------------------------ from the reads of a file

  lemma {:induction false} PieceNulFree(p: Piece)
    requires Legal(p)
    ensures NUL !in Written(p)
    decreases p
  {
    if p.Joined? {
      PieceNulFree(p.piece);
    } else if p.OctalDigits? {
      assert AllOctal(p.digits);
    } else if p.HexDigits? {
      assert AllHex(p.digits);
    }
  }

  lemma {:induction false} TextNulFree(ps: seq<Piece>)
    requires forall i | 0 <= i < |ps| :: Legal(ps[i])
    ensures NUL !in Text(ps)
  {
    if ps == [] {
    } else {
      PieceNulFree(ps[0]);
      TextNulFree(ps[1..]);
    }
  }

  lemma LineNulFree(l: Line)
    requires LegalLine(l)
    ensures NUL !in LineText(l)
  {
    match l {
      case Assigning(st) =>
        TextNulFree(st.name);
        TextNulFree(st.value.text);
        if st.value.Bare? && st.value.remark.Some? {
          TextNulFree(st.value.remark.value);
        }
      case Starting(name) => TextNulFree(name);
      case Ending(name) => TextNulFree(name);
      case Remark(text) => TextNulFree(text);
      case Blank(ws) =>
    }
  }

  lemma {:induction false} LinesNulFree(ls: seq<Line>)
    requires AllLegalLines(ls)
    ensures NUL !in LinesText(ls)
  {
    if ls == [] {
    } else {
      LineNulFree(ls[0]);
      LinesNulFree(ls[1..]);
    }
  }

  lemma {:induction false} ReadsNulFree(fd: Source)
    requires NUL !in Concat(fd)
    ensures NulFree(fd)
  {
    if fd == [] {
    } else {
      assert forall c | c in fd[0] || c in Concat(fd[1..]) :: c in Concat(fd);
      ReadsNulFree(fd[1..]);
    }
  }

  /** The reads are of these lines and some line ends, and seen as one text: no read is shorter than
      the one before it, and none that is short ends inside an escape. */
  ghost predicate Holds(fd: Source, ls: seq<Line>, k: nat) {
    SourceOk(fd) && NeverShorter(fd) && RestsAtShort(FRESH, fd) && Concat(fd) == LinesText(ls) + Newlines(k)
  }

  /** A text in full reads. */
  function Chunks(text: string): Source
    requires |text| % BUFFER_SIZE == 0
  {
    if text == [] then [] else [text[..BUFFER_SIZE]] + Chunks(text[BUFFER_SIZE..])
  }

  lemma {:induction false} ChunksHold(m: Mode, text: string)
    requires |text| % BUFFER_SIZE == 0
    ensures var fd := Chunks(text); Concat(fd) == text && RestsAtShort(m, fd)
    ensures forall i | 0 <= i < |Chunks(text)| :: |Chunks(text)[i]| == BUFFER_SIZE
    decreases |text|
  {
    if text == [] {
    } else {
      ChunksHold(ModeAfter(m, text[..BUFFER_SIZE]), text[BUFFER_SIZE..]);
    }
  }

  lemma FullLength(n: nat, k: nat)
    requires k == (BUFFER_SIZE - n % BUFFER_SIZE) % BUFFER_SIZE
    ensures (n + k) % BUFFER_SIZE == 0
  {
  }

  /** A file with enough line ends at its end can always be read so. */
  lemma Padded(ls: seq<Line>) returns (k: nat, fd: Source)
    ensures k < BUFFER_SIZE && Holds(fd, ls, k)
  {
    k := (BUFFER_SIZE - |LinesText(ls)| % BUFFER_SIZE) % BUFFER_SIZE;
    var text := LinesText(ls) + Newlines(k);
    FullLength(|LinesText(ls)|, k);
    fd := Chunks(text);
    ChunksHold(FRESH, text);
  }

  /** A file whose scan is that of one text is parsed as that text. */
  lemma ParsedAsOneText(fd: Source)
    requires SourceOk(fd) && NulFree(fd) && NeverShorter(fd) && RestsAtShort(FRESH, fd)
    ensures OutcomeOf(Parsed(fd)) == OutcomeOf(ParseAll(Parse(WholeScan(fd), Ok, [], NOTHING)))
  {
    ScannedAsOneText(fd);
    ParseAlike(Parse(FirstScan(fd), Ok, [], NOTHING), Parse(WholeScan(fd), Ok, [], NOTHING));
  }

  /** No callback of the configuration asks for a block to be skipped. */
  lemma {:induction false} NeverSkips(o: Outcome, ls: seq<Line>)
    requires o.status == Ok || o.status == StopErr
    ensures PerformAll(o, ls).status == Ok || PerformAll(o, ls).status == StopErr
    decreases |ls|
  {
    if ls == [] {
    } else {
      NeverSkips(Perform(o, ls[0]), ls[1..]);
    }
  }

  /** Reading back a file of any written lines, blocks opened and closed in any order, makes the
      callbacks and the configuration that the lines stand for. copa_read_fd returns the status they
      end with, but COPA_SYS_ERR for a file without a single character. */
  lemma LinesRoundTrip(ls: seq<Line>, k: nat, fd: Source)
    requires AllLegalLines(ls) && Holds(fd, ls, k)
    ensures OutcomeOf(Parsed(fd)) == PerformAll(BEGIN, ls)
    ensures Returned(fd, NOTHING) == if fd == [] then SysErr else PerformAll(BEGIN, ls).status
    ensures fd == [] <==> LinesText(ls) == "" && k == 0
  {
    LinesNulFree(ls);
    ReadsNulFree(fd);
    ParsedAsOneText(fd);
    TextRead(ls, k);
    NeverSkips(BEGIN, ls);
    assert fd != [] ==> fd[0] != [];
  }
}
