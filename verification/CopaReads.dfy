/** What the scanner makes of a file that is read piecemeal: when the characters it takes out of its
    buffer are those of the file, and when it reads the file as if it were one text. */
module CopaReads {
  import opened Common
  import opened CopaParse
  import opened CopaScan
  import opened CopaScanner
  import opened CopaText

  /** A text without its NULs, which the scanner skips between escapes. */
  function Strip(s: string): string {
    if s == [] then [] else (if s[0] == NUL then [] else s[..1]) + Strip(s[1..])
  }

  lemma {:induction false} StripConcat(a: string, b: string)
    ensures Strip(a + b) == Strip(a) + Strip(b)
  {
    if a == [] {
      assert a + b == b;
    } else {
      assert (a + b)[1..] == a[1..] + b && (a + b)[..1] == a[..1];
      StripConcat(a[1..], b);
      Assoc(if a[0] == NUL then [] else a[..1], Strip(a[1..]), Strip(b));
    }
  }

  lemma {:induction false} StripSame(s: string)
    requires NUL !in s
    ensures Strip(s) == s
  {
    if s == [] {
    } else {
      StripSame(s[1..]);
    }
  }

  lemma {:induction false} StripNothing(s: string)
    ensures Strip(s) == [] <==> forall i | 0 <= i < |s| :: s[i] == NUL
  {
    if s == [] {
    } else {
      StripNothing(s[1..]);
      assert forall i | 1 <= i < |s| :: s[i] == s[1..][i - 1];
    }
  }

  // ------------------------------------------------------------------ the characters that are scanned

  /** The buffer after a read. */
  function Filled(buffer: string, chunk: string): string
    requires |buffer| == BUFFER_SIZE && |chunk| <= BUFFER_SIZE
  {
    chunk + buffer[|chunk|..]
  }

  /** What each read leaves of the buffer is NULs. */
  ghost predicate StaleIsNul(buffer: string, fd: Source)
    requires SourceOk(fd) && |buffer| == BUFFER_SIZE
    decreases |fd|
  {
    fd == [] || (Strip(buffer[|fd[0]|..]) == [] && StaleIsNul(Filled(buffer, fd[0]), fd[1..]))
  }

  lemma OverlayStep(buffer: string, fd: Source)
    requires SourceOk(fd) && |buffer| == BUFFER_SIZE && fd != []
    ensures SourceOk(fd[1..])
    ensures Strip(Overlay(buffer, fd))
         == Strip(fd[0]) + (Strip(buffer[|fd[0]|..]) + Strip(Overlay(Filled(buffer, fd[0]), fd[1..])))
    ensures Strip(Concat(fd)) == Strip(fd[0]) + Strip(Concat(fd[1..]))
  {
    var stale, after := buffer[|fd[0]|..], Overlay(Filled(buffer, fd[0]), fd[1..]);
    Assoc(fd[0], stale, after);
    StripConcat(fd[0], stale + after);
    StripConcat(stale, after);
    StripConcat(fd[0], Concat(fd[1..]));
  }

  lemma {:induction false} OverlayLonger(buffer: string, fd: Source)
    requires SourceOk(fd) && |buffer| == BUFFER_SIZE
    ensures |Strip(Overlay(buffer, fd))| >= |Strip(Concat(fd))|
    ensures |Strip(Overlay(buffer, fd))| == |Strip(Concat(fd))| ==> StaleIsNul(buffer, fd)
    decreases |fd|
  {
    if fd == [] {
    } else {
      OverlayStep(buffer, fd);
      OverlayLonger(Filled(buffer, fd[0]), fd[1..]);
    }
  }

  lemma {:induction false} OverlayCleared(buffer: string, fd: Source)
    requires SourceOk(fd) && |buffer| == BUFFER_SIZE && StaleIsNul(buffer, fd)
    ensures Strip(Overlay(buffer, fd)) == Strip(Concat(fd))
    decreases |fd|
  {
    if fd == [] {
    } else {
      OverlayStep(buffer, fd);
      OverlayCleared(Filled(buffer, fd[0]), fd[1..]);
    }
  }

  /** But for NULs the characters scanned are those of the file, exactly if every read leaves nothing
      but NULs in the rest of the buffer. */
  lemma OverlayExact(buffer: string, fd: Source)
    requires SourceOk(fd) && |buffer| == BUFFER_SIZE
    ensures Strip(Overlay(buffer, fd)) == Strip(Concat(fd)) <==> StaleIsNul(buffer, fd)
  {
    OverlayLonger(buffer, fd);
    if StaleIsNul(buffer, fd) {
      OverlayCleared(buffer, fd);
    }
  }

  ghost predicate NulFree(fd: Source) {
    forall i | 0 <= i < |fd| :: NUL !in fd[i]
  }

  /** No read is shorter than the one before it. */
  ghost predicate NeverShorter(fd: Source) {
    forall i | 1 <= i < |fd| :: |fd[i - 1]| <= |fd[i]|
  }

  lemma NeverShorterTail(fd: Source)
    requires fd != []
    ensures NeverShorter(fd) <==> NeverShorter(fd[1..]) && (|fd| > 1 ==> |fd[0]| <= |fd[1]|)
  {
    var rest := fd[1..];
    assert forall i | 1 <= i < |rest| :: rest[i - 1] == fd[i] && rest[i] == fd[i + 1];
    if NeverShorter(rest) && (|fd| > 1 ==> |fd[0]| <= |fd[1]|) {
      forall i | 1 <= i < |fd| ensures |fd[i - 1]| <= |fd[i]| {
        assert i > 1 ==> rest[i - 2] == fd[i - 1] && rest[i - 1] == fd[i];
      }
    }
  }

  /** With a buffer that starts with this text and holds NULs after it. */
  lemma {:induction false} StaleAfter(w: string, fd: Source)
    requires SourceOk(fd) && NulFree(fd) && NUL !in w && |w| <= BUFFER_SIZE
    ensures StaleIsNul(w + Zeros(BUFFER_SIZE - |w|), fd)
       <==> NeverShorter(fd) && (fd != [] ==> |w| <= |fd[0]|)
    decreases |fd|
  {
    if fd == [] {
    } else {
      var buffer, c := w + Zeros(BUFFER_SIZE - |w|), fd[0];
      var stale := buffer[|c|..];
      StripNothing(stale);
      NeverShorterTail(fd);
      if |c| < |w| {
        assert stale[0] == w[|c|];
      } else {
        assert Filled(buffer, c) == c + Zeros(BUFFER_SIZE - |c|);
        StaleAfter(c, fd[1..]);
      }
    }
  }

  /** For a file without NULs, then, exactly if no read is shorter than the one before it. */
  lemma ScannedExactly(fd: Source)
    requires SourceOk(fd) && NulFree(fd)
    ensures Strip(Overlay(Zeros(BUFFER_SIZE), fd)) == Concat(fd) <==> NeverShorter(fd)
  {
    OverlayExact(Zeros(BUFFER_SIZE), fd);
    assert "" + Zeros(BUFFER_SIZE) == Zeros(BUFFER_SIZE);
    StaleAfter("", fd);
    ConcatNulFree(fd);
    StripSame(Concat(fd));
  }

  lemma {:induction false} ConcatNulFree(fd: Source)
    requires NulFree(fd)
    ensures NUL !in Concat(fd)
  {
    if fd == [] {
    } else {
      ConcatNulFree(fd[1..]);
    }
  }

  // ------------------------------------------------------------------ NULs between escapes

  /** Between escapes: the next raw character is not part of one. */
  predicate AtRest(m: Mode) {
    !m.escape && m.octal == 0 && m.hex == 0
  }

  /** Where in an escape the machine is. */
  function Phase(m: Mode): Mode {
    m.(pushback := NUL, number := 0)
  }

  lemma FeedPhase(m: Mode, n: Mode, c: char)
    requires Phase(m) == Phase(n)
    ensures Phase(Feed(m, c).0) == Phase(Feed(n, c).0)
  {
  }

  /** Every NUL of the text comes when the machine, starting so, is at rest. */
  predicate Calm(m: Mode, text: string)
    decreases |text|
  {
    text == [] || ((text[0] == NUL ==> AtRest(m)) && Calm(Feed(m, text[0]).0, text[1..]))
  }

  lemma {:induction false} CalmPhase(m: Mode, n: Mode, text: string)
    requires Phase(m) == Phase(n)
    ensures Calm(m, text) <==> Calm(n, text)
    decreases |text|
  {
    if text == [] {
    } else {
      FeedPhase(m, n, text[0]);
      CalmPhase(Feed(m, text[0]).0, Feed(n, text[0]).0, text[1..]);
    }
  }

  /** t scans the text of s without its NULs. */
  predicate Alike(s: Scan, t: Scan) {
    s.mode == t.mode && s.active == t.active && t.rest == Strip(s.rest) && Calm(s.mode, s.rest)
  }

  /** Two scans go on alike after the same result. */
  predicate Agree<T(==)>(a: (Scan, T), b: (Scan, T)) {
    Alike(a.0, b.0) && a.1 == b.1
  }

  lemma {:induction false} PullAlike(s: Scan, t: Scan)
    requires Alike(s, t)
    ensures Agree(Pull(s), Pull(t))
    decreases |s.rest|
  {
    if s.rest == [] {
    } else {
      var (m, c) := Feed(s.mode, s.rest[0]);
      var s' := Scan(s.rest[1..], m, s.active);
      if s.rest[0] == NUL {
        PullAlike(s', t);
      } else {
        var t' := Scan(t.rest[1..], m, t.active);
        assert t.rest == [s.rest[0]] + Strip(s.rest[1..]);
        if c == NUL {
          PullAlike(s', t');
        }
      }
    }
  }

  lemma PushBackAlike(s: Scan, t: Scan, c: char)
    requires Alike(s, t)
    ensures Alike(PushBack(s, c), PushBack(t, c))
  {
    CalmPhase(s.mode, PushBack(s, c).mode, s.rest);
  }

  lemma NextAlike(s: Scan, t: Scan)
    requires Alike(s, t)
    ensures Agree(Next(s), Next(t))
  {
    if s.mode.pushback == NUL {
      PullAlike(s, t);
    } else {
      PushBackAlike(s, t, NUL);
    }
  }

  lemma PeekAlike(s: Scan, t: Scan)
    requires Alike(s, t)
    ensures Agree(Peek(s), Peek(t))
  {
    if s.mode.pushback == NUL {
      NextAlike(s, t);
      PushBackAlike(Next(s).0, Next(t).0, Next(s).1);
    }
  }

  lemma {:induction false} SkipAlike(s: Scan, t: Scan, classes: set<Class>, over: bool)
    requires Alike(s, t)
    ensures Alike(Skip(s, classes, over), Skip(t, classes, over))
    decreases s.Weight()
  {
    NextAlike(s, t);
    var (u, c) := Next(s);
    if c == EOF {
    } else if In(c, classes) != over {
      PushBackAlike(u, Next(t).0, c);
    } else {
      SkipAlike(u, Next(t).0, classes, over);
    }
  }

  lemma {:induction false} SlurpAlike(s: Scan, t: Scan, good: set<Class>, bad: set<Class>, got: string)
    requires Alike(s, t)
    ensures Agree(Slurp(s, good, bad, got), Slurp(t, good, bad, got))
    decreases s.Weight()
  {
    NextAlike(s, t);
    var (u, c) := Next(s);
    var v := Next(t).0;
    if c == EOF {
    } else if In(c, good) {
      PushBackAlike(u, v, c);
    } else if In(c, bad) {
      PushBackAlike(u.(active := false), v.(active := false), c);
    } else {
      SlurpAlike(u, v, good, bad, got + [c]);
    }
  }

  lemma SlurpToAlike(s: Scan, t: Scan, good: set<Class>, bad: set<Class>)
    requires Alike(s, t)
    ensures Agree(SlurpTo(s, good, bad), SlurpTo(t, good, bad))
  {
    SlurpAlike(s, t, good, bad, []);
  }

  lemma ExpectAlike(s: Scan, t: Scan, classes: set<Class>)
    requires Alike(s, t)
    ensures Agree(Expect(s, classes), Expect(t, classes))
  {
    NextAlike(s, t);
  }

  lemma SlurpQuotedAlike(s: Scan, t: Scan)
    requires Alike(s, t)
    ensures Agree(SlurpQuoted(s), SlurpQuoted(t))
  {
    NextAlike(s, t);
    var (u, c) := Next(s);
    var v := Next(t).0;
    var quote := if In(c, {SQuote}) then {SQuote} else {DQuote};
    SlurpToAlike(u, v, quote, {});
    ExpectAlike(SlurpTo(u, quote, {}).0, SlurpTo(v, quote, {}).0, quote);
  }

  lemma ValueAlike(s: Scan, t: Scan)
    requires Alike(s, t)
    ensures Agree(ScanValue(s), ScanValue(t))
  {
    LineStartAlike(s, t);
    var (u, c) := Peek(SkipOver(s, {Whitespace}));
    var v := Peek(SkipOver(t, {Whitespace})).0;
    if In(c, {DQuote, SQuote}) {
      SlurpQuotedAlike(u, v);
    } else {
      SlurpToAlike(u, v, {Comment, Newline}, {});
    }
  }

  lemma AssignmentAlike(s: Scan, t: Scan)
    requires Alike(s, t)
    ensures Agree(ScanAssignment(s), ScanAssignment(t))
  {
    SlurpToAlike(s, t, {Whitespace}, {Comment, Newline});
    ValueAlike(SlurpTo(s, {Whitespace}, {Comment, Newline}).0, SlurpTo(t, {Whitespace}, {Comment, Newline}).0);
  }

  lemma BlockAlike(s: Scan, t: Scan)
    requires Alike(s, t)
    ensures Agree(ScanBlock(s), ScanBlock(t))
  {
    ExpectAlike(s, t, {LBracket});
    var s1, t1 := Expect(s, {LBracket}).0, Expect(t, {LBracket}).0;
    PeekAlike(s1, t1);
    var s2, t2 := Peek(s1).0, Peek(t1).0;
    NextAlike(s2, t2);
    var end := In(Peek(s1).1, {Slash});
    var s3, t3 := if end then Next(s2).0 else s2, if end then Next(t2).0 else t2;
    SlurpToAlike(s3, t3, {RBracket}, {Comment, Newline});
    ExpectAlike(SlurpTo(s3, {RBracket}, {Comment, Newline}).0,
                SlurpTo(t3, {RBracket}, {Comment, Newline}).0, {RBracket});
  }

  /** Two parses that differ only in the NULs still to be scanned. */
  predicate ParsedAlike(p: Parse, q: Parse) {
    Alike(p.scan, q.scan) && p.(scan := q.scan) == q
  }

  lemma ParseAssignmentAlike(p: Parse, q: Parse)
    requires ParsedAlike(p, q)
    ensures ParsedAlike(ParseAssignment(p), ParseAssignment(q))
  {
    AssignmentAlike(p.scan, q.scan);
  }

  lemma ParseBlockAlike(p: Parse, q: Parse)
    requires ParsedAlike(p, q)
    ensures ParsedAlike(ParseBlock(p), ParseBlock(q))
  {
    BlockAlike(p.scan, q.scan);
  }

  lemma CommentAlike(p: Parse, q: Parse)
    requires ParsedAlike(p, q)
    ensures ParsedAlike(p.(scan := SkipTo(p.scan, {Newline})), q.(scan := SkipTo(q.scan, {Newline})))
  {
    SkipAlike(p.scan, q.scan, {Newline}, false);
  }

  lemma LineStartAlike(s: Scan, t: Scan)
    requires Alike(s, t)
    ensures Agree(Peek(SkipOver(s, {Whitespace})), Peek(SkipOver(t, {Whitespace})))
  {
    SkipAlike(s, t, {Whitespace}, true);
    PeekAlike(SkipOver(s, {Whitespace}), SkipOver(t, {Whitespace}));
  }

  lemma LineAlike(p: Parse, q: Parse)
    requires ParsedAlike(p, q)
    ensures ParsedAlike(ParseLine(p), ParseLine(q))
  {
    LineStartAlike(p.scan, q.scan);
    var (s, c) := Peek(SkipOver(p.scan, {Whitespace}));
    var p1, q1 := p.(scan := s), q.(scan := Peek(SkipOver(q.scan, {Whitespace})).0);
    if In(c, {Comment}) {
      CommentAlike(p1, q1);
    } else if In(c, {LBracket}) {
      ParseBlockAlike(p1, q1);
    } else {
      ParseAssignmentAlike(p1, q1);
    }
  }

  lemma {:induction false} ParseAlike(p: Parse, q: Parse)
    requires ParsedAlike(p, q)
    ensures ParsedAlike(ParseAll(p), ParseAll(q))
    decreases p.scan.active, p.scan.Weight()
  {
    if !p.scan.active {
    } else {
      ParseLineProgress(p);
      LineAlike(p, q);
      ParseAlike(ParseLine(p), ParseLine(q));
    }
  }

  lemma {:induction false} DecodedAlike(s: Scan, t: Scan)
    requires Alike(s, t)
    ensures Decoded(s) == Decoded(t)
    decreases s.Weight()
  {
    NextAlike(s, t);
    if Next(s).1 == EOF {
    } else {
      DecodedAlike(Next(s).0, Next(t).0);
    }
  }

  // ------------------------------------------------------------------ reads that end between escapes

  /** The machine after a text. */
  function ModeAfter(m: Mode, text: string): Mode
    decreases |text|
  {
    if text == [] then m else ModeAfter(Feed(m, text[0]).0, text[1..])
  }

  /** Every read that does not fill the buffer ends between escapes. */
  ghost predicate RestsAtShort(m: Mode, fd: Source)
    decreases |fd|
  {
    fd == [] ||
    (var after := ModeAfter(m, fd[0]);
     (|fd[0]| < BUFFER_SIZE ==> AtRest(after)) && RestsAtShort(after, fd[1..]))
  }

  lemma {:induction false} CalmConcat(m: Mode, a: string, b: string)
    ensures Calm(m, a + b) <==> Calm(m, a) && Calm(ModeAfter(m, a), b)
    decreases |a|
  {
    if a == [] {
      assert a + b == b;
    } else {
      assert (a + b)[1..] == a[1..] + b && (a + b)[0] == a[0];
      CalmConcat(Feed(m, a[0]).0, a[1..], b);
    }
  }

  lemma {:induction false} CalmText(m: Mode, text: string)
    requires NUL !in text
    ensures Calm(m, text)
    decreases |text|
  {
    if text == [] {
    } else {
      CalmText(Feed(m, text[0]).0, text[1..]);
    }
  }

  /** NULs change nothing when the machine is at rest. */
  lemma {:induction false} CalmNuls(m: Mode, nuls: string)
    requires Strip(nuls) == [] && (nuls != [] ==> AtRest(m))
    ensures Calm(m, nuls) && ModeAfter(m, nuls) == m
    decreases |nuls|
  {
    if nuls == [] {
    } else {
      CalmNuls(m, nuls[1..]);
    }
  }

  lemma {:induction false} OverlayCalm(m: Mode, buffer: string, fd: Source)
    requires SourceOk(fd) && |buffer| == BUFFER_SIZE
    requires NulFree(fd) && StaleIsNul(buffer, fd) && RestsAtShort(m, fd)
    ensures Calm(m, Overlay(buffer, fd))
    decreases |fd|
  {
    if fd == [] {
    } else {
      var stale, after := buffer[|fd[0]|..], ModeAfter(m, fd[0]);
      var tail := Overlay(Filled(buffer, fd[0]), fd[1..]);
      OverlayCalm(after, Filled(buffer, fd[0]), fd[1..]);
      CalmText(m, fd[0]);
      CalmNuls(after, stale);
      CalmConcat(after, stale, tail);
      CalmConcat(m, fd[0], stale + tail);
      Assoc(fd[0], stale, tail);
    }
  }

  /** The scan of the file as one text. */
  ghost function WholeScan(fd: Source): Scan {
    Scan(Concat(fd), FRESH, true)
  }

  lemma {:induction false} CalmRests(m: Mode, buffer: string, fd: Source)
    requires SourceOk(fd) && |buffer| == BUFFER_SIZE
    requires StaleIsNul(buffer, fd) && Calm(m, Overlay(buffer, fd))
    ensures RestsAtShort(m, fd)
    decreases |fd|
  {
    if fd == [] {
    } else {
      var stale, after := buffer[|fd[0]|..], ModeAfter(m, fd[0]);
      var tail := Overlay(Filled(buffer, fd[0]), fd[1..]);
      Assoc(fd[0], stale, tail);
      CalmConcat(m, fd[0], stale + tail);
      CalmConcat(after, stale, tail);
      StripNothing(stale);
      CalmNuls(after, stale);
      CalmRests(after, Filled(buffer, fd[0]), fd[1..]);
    }
  }

  lemma CalmExactly(fd: Source)
    requires SourceOk(fd) && NulFree(fd) && NeverShorter(fd)
    ensures Calm(FRESH, Overlay(Zeros(BUFFER_SIZE), fd)) <==> RestsAtShort(FRESH, fd)
  {
    assert "" + Zeros(BUFFER_SIZE) == Zeros(BUFFER_SIZE);
    StaleAfter("", fd);
    if RestsAtShort(FRESH, fd) {
      OverlayCalm(FRESH, Zeros(BUFFER_SIZE), fd);
    } else if Calm(FRESH, Overlay(Zeros(BUFFER_SIZE), fd)) {
      CalmRests(FRESH, Zeros(BUFFER_SIZE), fd);
    }
  }

  /** A file without NULs is scanned as if it were one text, and NULs between escapes, exactly if no
      read is shorter than the one before it and none that leaves the buffer short ends inside an
      escape. Then the characters delivered are those of the text. */
  lemma ScannedAsOneText(fd: Source)
    requires SourceOk(fd) && NulFree(fd)
    ensures Alike(FirstScan(fd), WholeScan(fd)) <==> NeverShorter(fd) && RestsAtShort(FRESH, fd)
    ensures NeverShorter(fd) && RestsAtShort(FRESH, fd) ==> Decoded(FirstScan(fd)) == Decoded(WholeScan(fd))
  {
    ScannedExactly(fd);
    if NeverShorter(fd) {
      CalmExactly(fd);
    }
    if Alike(FirstScan(fd), WholeScan(fd)) {
      DecodedAlike(FirstScan(fd), WholeScan(fd));
    }
  }
}
