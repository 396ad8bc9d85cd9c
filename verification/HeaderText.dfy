/** Canonical header text (headers_canonicalize of params.c). */
module HeaderText {
  import opened Common
  import opened ParamTokens

  const SPHT: set<char> := {' ', '\t'}
  const CRLF: set<char> := {'\r', '\n'}
  const LWS: set<char> := {' ', '\t', '\r', '\n'}

  datatype Canonical = Canonical(text: string, complete: bool)

  /** How often a character occurs. */
  function Count(s: string, c: char): nat {
    if s == [] then 0 else (if s[0] == c then 1 else 0) + Count(s[1..], c)
  }

  /** A run of CR and LF that closes the headers. */
  predicate Closes(run: string) {
    Count(run, '\r') >= 2 || Count(run, '\n') >= 2
  }

  /** The text starts with a closing run. */
  predicate Closed(text: string) {
    text != [] && text[0] in CRLF && Closes(text[..Span(text, CRLF)])
  }

  /** Length of the next piece of a text: a run of SP and HT, a line break with the SP and HT after
      it, or one other character. */
  function Piece(text: string): (k: nat)
    requires text != []
    ensures 0 < k <= |text|
  {
    if text[0] in SPHT then Span(text, SPHT)
    else if text[0] in CRLF then Span(text, CRLF) + Span(text[Span(text, CRLF)..], SPHT)
    else 1
  }

  /** What it becomes: one SP for white space that does not end the line, CRLF for a line break. */
  function Mark(text: string): string
    requires text != []
  {
    if text[0] in CRLF && Piece(text) == Span(text, CRLF) then "\r\n"
    else if text[0] in LWS then " "
    else text[..1]
  }

  function Then(head: string, rest: Canonical): Canonical {
    Canonical(head + rest.text, rest.complete)
  }

  /** The canonical form of a text; its first closing run ends it. */
  function Canon(text: string): Canonical
    decreases |text|
  {
    if text == [] then Canonical("", false)
    else if Closed(text) then Canonical("", true)
    else Then(Mark(text), Canon(text[Piece(text)..]))
  }

  // ------------------------------------------------------------------ when a text is complete

  /** Positions p < q hold the same character, CR or LF, and nothing but CR and LF lies between. */
  predicate Twice(text: string, p: int, q: int) {
    && 0 <= p < q < |text| && text[p] == text[q]
    && forall k | p <= k <= q :: text[k] in CRLF
  }

  ghost predicate HasBlank(text: string) {
    exists p, q :: Twice(text, p, q)
  }

  lemma {:induction false} CountTwo(s: string, c: char) returns (p: nat, q: nat)
    requires Count(s, c) >= 2
    ensures p < q < |s| && s[p] == c == s[q]
  {
    if s[0] == c {
      p := 0;
      q := CountOne(s[1..], c);
      q := q + 1;
    } else {
      p, q := CountTwo(s[1..], c);
      p, q := p + 1, q + 1;
    }
  }

  lemma {:induction false} CountOne(s: string, c: char) returns (p: nat)
    requires Count(s, c) >= 1
    ensures p < |s| && s[p] == c
  {
    if s[0] == c {
      p := 0;
    } else {
      p := CountOne(s[1..], c);
      p := p + 1;
    }
  }

  lemma {:induction false} CountSome(s: string, p: nat)
    requires p < |s|
    ensures Count(s, s[p]) >= 1
  {
    if p == 0 {
    } else {
      CountSome(s[1..], p - 1);
    }
  }

  lemma {:induction false} CountMany(s: string, p: nat, q: nat)
    requires p < q < |s| && s[p] == s[q]
    ensures Count(s, s[p]) >= 2
  {
    if p > 0 {
      CountMany(s[1..], p - 1, q - 1);
    } else {
      CountSome(s[1..], q - 1);
    }
  }

  /** A leading run closes the headers exactly if it holds a pair. */
  lemma ClosesExactly(text: string, n: nat)
    requires n == Span(text, CRLF)
    ensures Closes(text[..n]) <==> exists p, q :: Twice(text, p, q) && p < n
  {
    if Closes(text[..n]) {
      var p, q := CountTwo(text[..n], if Count(text[..n], '\r') >= 2 then '\r' else '\n');
      assert Twice(text, p, q);
    }
    if p, q :| Twice(text, p, q) && p < n {
      assert q < n by {
        assert n < |text| ==> text[n] !in CRLF;
      }
      CountMany(text[..n], p, q);
    }
  }

  /** Dropping characters before a pair keeps it. */
  lemma TwiceShift(text: string, k: nat, p: int, q: int)
    requires k <= |text|
    ensures Twice(text[k..], p - k, q - k) <==> Twice(text, p, q) && k <= p
  {
    if Twice(text[k..], p - k, q - k) {
      assert forall i | p <= i <= q :: text[i] == text[k..][i - k];
    }
  }

  /** No pair starts in a stretch that is not CR or LF, or in a break that does not close. */
  lemma BlankShift(text: string, k: nat)
    requires k <= |text| && forall p, q | Twice(text, p, q) :: k <= p
    ensures HasBlank(text) <==> HasBlank(text[k..])
  {
    if p, q :| Twice(text, p, q) {
      TwiceShift(text, k, p, q);
    }
    if p, q :| Twice(text[k..], p, q) {
      TwiceShift(text, k, p + k, q + k);
    }
  }

  /** No pair starts in a piece that is not a closing run. */
  lemma PieceHasNone(text: string)
    requires text != [] && !Closed(text)
    ensures forall p, q | Twice(text, p, q) :: Piece(text) <= p
  {
    var n := Span(text, CRLF);
    ClosesExactly(text, n);
    forall p, q | Twice(text, p, q) ensures Piece(text) <= p {
      if text[0] in CRLF {
        assert p >= n && text[n..][p - n] == text[p];
      }
    }
  }

  /** Canonicalisation succeeds exactly when some run of CR and LF has two of either. */
  lemma {:induction false} CompleteExactly(text: string)
    ensures Canon(text).complete <==> HasBlank(text)
    decreases |text|
  {
    if text == [] {
    } else {
      if Closed(text) {
        ClosesExactly(text, Span(text, CRLF));
      } else {
        PieceHasNone(text);
        BlankShift(text, Piece(text));
        CompleteExactly(text[Piece(text)..]);
      }
    }
  }

  // ------------------------------------------------------------------ a success is final

  lemma {:induction false} SpanMore(text: string, more: string, accept: set<char>)
    ensures Span(text, accept) <= Span(text + more, accept)
    ensures Span(text, accept) < |text| ==> Span(text + more, accept) == Span(text, accept)
  {
    if text == [] {
    } else {
      assert (text + more)[1..] == text[1..] + more;
      SpanMore(text[1..], more, accept);
    }
  }

  lemma {:induction false} CountPrefix(s: string, n: nat, c: char)
    requires n <= |s|
    ensures Count(s[..n], c) <= Count(s, c)
  {
    if n == 0 {
    } else {
      assert s[..n][1..] == s[1..][..n - 1];
      CountPrefix(s[1..], n - 1, c);
    }
  }

  lemma ClosesMore(text: string, n: nat, k: nat)
    requires n <= k <= |text| && Closes(text[..n])
    ensures Closes(text[..k])
  {
    assert text[..k][..n] == text[..n];
    CountPrefix(text[..k], n, '\r');
    CountPrefix(text[..k], n, '\n');
  }

  lemma StableAfter(text: string, more: string, k: nat)
    requires k <= |text|
    ensures (text + more)[k..] == text[k..] + more && (text + more)[..k] == text[..k]
  {
  }

  /** A line break that is not at the end of the text does not change. */
  lemma BreakMore(text: string, more: string)
    requires text != [] && text[0] in CRLF && !Closed(text) && Piece(text) < |text|
    ensures Piece(text + more) == Piece(text) && Span(text + more, CRLF) == Span(text, CRLF) && !Closed(text + more)
  {
    var n := Span(text, CRLF);
    SpanMore(text, more, CRLF);
    SpanMore(text[n..], more, SPHT);
    StableAfter(text, more, n);
  }

  /** Nor does any other piece. */
  lemma PieceMore(text: string, more: string)
    requires text != [] && !Closed(text) && Piece(text) < |text|
    ensures Piece(text + more) == Piece(text) && Mark(text + more) == Mark(text) && !Closed(text + more)
  {
    assert (text + more)[0] == text[0];
    if text[0] in CRLF {
      BreakMore(text, more);
    } else {
      SpanMore(text, more, SPHT);
      StableAfter(text, more, 1);
    }
  }

  lemma ClosedMore(text: string, more: string)
    requires Closed(text)
    ensures Closed(text + more)
  {
    var n := Span(text, CRLF);
    SpanMore(text, more, CRLF);
    StableAfter(text, more, n);
    ClosesMore(text + more, n, Span(text + more, CRLF));
  }

  /** A complete text stays so, with the same canonical form, whatever follows it. */
  lemma {:induction false} CompleteIsStable(text: string, more: string)
    requires Canon(text).complete
    ensures Canon(text + more) == Canon(text)
    decreases |text|
  {
    if Closed(text) {
      ClosedMore(text, more);
    } else {
      var k := Piece(text);
      PieceMore(text, more);
      StableAfter(text, more, k);
      CompleteIsStable(text[k..], more);
    }
  }

  // ------------------------------------------------------------------ what the canonical form keeps

  /** Length of the part of a text before its closing run. */
  function Stop(text: string): (n: nat)
    ensures n <= |text|
    decreases |text|
  {
    if text == [] || Closed(text) then 0 else Piece(text) + Stop(text[Piece(text)..])
  }

  /** The maximal stretches of other characters than SP, HT, CR and LF. */
  function Words(s: string): (w: seq<string>)
    ensures |s| > 0 && s[0] !in LWS ==> |w| > 0
  {
    if s == [] then []
    else if s[0] in LWS then Words(s[1..])
    else if |s| > 1 && s[1] !in LWS then [s[..1] + Words(s[1..])[0]] + Words(s[1..])[1..]
    else [s[..1]] + Words(s[1..])
  }

  lemma {:induction false} WordsSkip(s: string, k: nat)
    requires k <= |s| && forall i | 0 <= i < k :: s[i] in LWS
    ensures Words(s) == Words(s[k..])
  {
    if k == 0 {
    } else {
      WordsSkip(s[1..], k - 1);
    }
  }

  /** Both start with white space, or neither does. */
  predicate SameStart(a: string, b: string) {
    (a == [] <==> b == []) && (a != [] ==> (a[0] in LWS <==> b[0] in LWS))
  }

  /** The canonical form starts as the text does. */
  lemma StartsAlike(text: string)
    ensures SameStart(Canon(text).text, text[..Stop(text)])
  {
  }

  lemma WordsCons(c: string, a: string, b: string)
    requires |c| == 1 && SameStart(a, b) && Words(a) == Words(b)
    ensures Words(c + a) == Words(c + b)
  {
    assert (c + a)[1..] == a && (c + b)[1..] == b;
    assert (c + a)[..1] == c == (c + b)[..1];
  }

  lemma StopShift(text: string, k: nat, s: nat)
    requires k + s <= |text|
    ensures text[..k + s] == text[..k] + text[k..][..s]
    ensures text[..k + s][k..] == text[k..][..s]
  {
  }

  /** White space at the front does not matter to the words. */
  lemma WordsBehind(gap: string, rest: string)
    requires forall i | 0 <= i < |gap| :: gap[i] in LWS
    ensures Words(gap + rest) == Words(rest)
  {
    WordsSkip(gap + rest, |gap|);
    assert (gap + rest)[|gap|..] == rest;
  }

  predicate AllSpace(s: string) {
    forall i | 0 <= i < |s| :: s[i] in LWS
  }

  /** What canonicalisation makes of a piece of the text that has this text after it. */
  predicate Becomes(piece: string, mark: string, rest: string) {
    || (mark == piece && |piece| == 1 && piece[0] !in LWS)
    || (AllSpace(piece) && (mark == " " || (mark == "\r\n" && (rest != [] ==> rest[0] !in LWS))))
  }

  lemma PieceBecomes(text: string)
    requires text != []
    ensures Becomes(text[..Piece(text)], Mark(text), text[Piece(text)..])
  {
    var k, n := Piece(text), Span(text, CRLF);
    var piece := text[..k];
    if text[0] in CRLF {
      forall i | 0 <= i < k ensures piece[i] in LWS {
        if i >= n {
          assert text[n..][i - n] in SPHT;
        }
      }
    }
  }

  lemma MarkIsSpace(piece: string, mark: string, rest: string)
    requires Becomes(piece, mark, rest) && AllSpace(piece)
    ensures AllSpace(mark)
  {
  }

  /** The words of a text up to its closing run, and nothing else but white space, are kept. */
  lemma {:induction false} WordsAreKept(text: string)
    ensures Words(Canon(text).text) == Words(text[..Stop(text)])
    decreases |text|
  {
    if text == [] || Closed(text) {
    } else {
      var k := Piece(text);
      var rest := text[k..];
      WordsAreKept(rest);
      StartsAlike(rest);
      StopShift(text, k, Stop(rest));
      PieceBecomes(text);
      WordsOfPiece(text[..k], Mark(text), rest, Canon(rest).text, rest[..Stop(rest)]);
    }
  }

  lemma WordsOfPiece(piece: string, mark: string, rest: string, a: string, b: string)
    requires Becomes(piece, mark, rest) && SameStart(a, b) && Words(a) == Words(b)
    ensures Words(mark + a) == Words(piece + b)
  {
    if AllSpace(piece) {
      MarkIsSpace(piece, mark, rest);
      WordsBehind(mark, a);
      WordsBehind(piece, b);
    } else {
      WordsCons(piece, a, b);
    }
  }

  predicate TidyAt(s: string, i: nat)
    requires i < |s|
  {
    && s[i] != '\t'
    && (s[i] == '\r' ==> i + 1 < |s| && s[i + 1] == '\n')
    && (s[i] == '\n' ==> 0 < i && s[i - 1] == '\r' && (i + 1 < |s| ==> s[i + 1] !in LWS))
  }

  /** Line breaks are CRLF, there is no HT, and no line after a break starts with white space. */
  predicate Tidy(s: string) {
    forall i | 0 <= i < |s| :: TidyAt(s, i)
  }

  lemma TidyPiece(piece: string, mark: string, rest: string, out: string)
    requires Becomes(piece, mark, rest) && Tidy(out)
    requires out != [] ==> rest != [] && (out[0] in LWS <==> rest[0] in LWS)
    ensures Tidy(mark + out)
  {
    var s := mark + out;
    forall i | 0 <= i < |s| ensures TidyAt(s, i) {
      if i >= |mark| {
        assert TidyAt(out, i - |mark|) && s[i] == out[i - |mark|];
      }
    }
  }

  /** Every canonical form is tidy. */
  lemma {:induction false} CanonIsTidy(text: string)
    ensures Tidy(Canon(text).text)
    decreases |text|
  {
    if text == [] || Closed(text) {
    } else {
      var rest := text[Piece(text)..];
      CanonIsTidy(rest);
      StartsAlike(rest);
      PieceBecomes(text);
      TidyPiece(text[..Piece(text)], Mark(text), rest, Canon(rest).text);
    }
  }

  // ------------------------------------------------------------------ how long it gets

  /** Line breaks of a single character that the next line does not continue, before the closing run. */
  function Lone(text: string): nat
    decreases |text|
  {
    if text == [] || Closed(text) then 0
    else (if text[0] in CRLF && Piece(text) == 1 then 1 else 0) + Lone(text[Piece(text)..])
  }

  /** Characters of white space in excess of one, in the pieces that become one SP. */
  function Shed(text: string): nat
    decreases |text|
  {
    if text == [] || Closed(text) then 0
    else (if Mark(text) == " " then Piece(text) - 1 else 0) + Shed(text[Piece(text)..])
  }

  lemma ShortRun(run: string)
    requires !Closes(run) && forall i | 0 <= i < |run| :: run[i] in CRLF
    ensures |run| <= 2
  {
    if |run| > 2 {
      if run[0] == run[1] {
        CountMany(run, 0, 1);
      } else if run[0] == run[2] {
        CountMany(run, 0, 2);
      } else {
        CountMany(run, 1, 2);
      }
    }
  }

  lemma PieceLength(text: string)
    requires text != [] && !Closed(text)
    ensures |Mark(text)| + (if Mark(text) == " " then Piece(text) - 1 else 0)
         == Piece(text) + if text[0] in CRLF && Piece(text) == 1 then 1 else 0
  {
    ClosesExactly(text, Span(text, CRLF));
    ShortRun(text[..Span(text, CRLF)]);
  }

  /** The length of a canonical form: what was kept, and one more for every lone break. */
  lemma {:induction false} LengthExactly(text: string)
    ensures |Canon(text).text| + Shed(text) == Stop(text) + Lone(text)
    decreases |text|
  {
    if text == [] || Closed(text) {
    } else {
      PieceLength(text);
      LengthExactly(text[Piece(text)..]);
    }
  }

  /** The canonical form fits the buffer, which is as long as the text and its NUL, exactly if the
      lone breaks do not outnumber the characters dropped. */
  lemma FitsExactly(text: string)
    ensures |Canon(text).text| <= |text| <==> Lone(text) <= Shed(text) + (|text| - Stop(text))
  {
    LengthExactly(text);
  }

  /** Every CR or LF has another next to it. */
  predicate LongBreaks(text: string) {
    forall i | 0 <= i < |text| && text[i] in CRLF :: InPair(text, i)
  }

  predicate InPair(text: string, i: nat)
    requires i < |text|
  {
    (i > 0 && text[i - 1] in CRLF) || (i + 1 < |text| && text[i + 1] in CRLF)
  }

  /** A piece never splits a run of CR and LF. */
  lemma PieceEnds(text: string, k: nat)
    requires text != [] && k == Piece(text) && k < |text| && text[k] in CRLF
    ensures text[k - 1] !in CRLF
  {
    var n := Span(text, CRLF);
    if text[0] in CRLF {
      assert text[n..][k - 1 - n] in SPHT;
    }
  }

  lemma RestHasLongBreaks(text: string, k: nat)
    requires text != [] && k == Piece(text) && LongBreaks(text)
    ensures LongBreaks(text[k..])
  {
    var rest := text[k..];
    forall i | 0 <= i < |rest| && rest[i] in CRLF ensures InPair(rest, i) {
      assert InPair(text, k + i);
      if i == 0 {
        PieceEnds(text, k);
      }
    }
  }

  /** When every break has two characters, no break is lone, and the output fits. */
  lemma {:induction false} LongBreaksFit(text: string)
    requires LongBreaks(text)
    ensures Lone(text) == 0 && |Canon(text).text| <= |text|
    decreases |text|
  {
    if text == [] || Closed(text) {
    } else {
      RestHasLongBreaks(text, Piece(text));
      LongBreaksFit(text[Piece(text)..]);
      assert text[0] in CRLF ==> InPair(text, 0);
    }
    FitsExactly(text);
  }

  lemma LoneStep(c: char, rest: string)
    requires c !in LWS
    ensures Canon("\n" + [c] + rest) == Then("\r\n" + [c], Canon(rest))
  {
    var text, word := "\n" + [c] + rest, [c] + rest;
    assert text[1..] == word && word[1..] == rest;
    assert Count(text[..1], '\r') == 0 && Count(text[..1], '\n') == 1;
    assert Canon(word) == Then([c], Canon(rest));
    Chain("\r\n", [c], Canon(rest));
  }

  lemma Chain(a: string, b: string, rest: Canonical)
    ensures Then(a, Then(b, rest)) == Then(a + b, rest)
  {
    assert a + (b + rest.text) == (a + b) + rest.text;
  }

  lemma BlankLine(end: string)
    requires |end| == 2 && end[0] == end[1] == '\n'
    ensures Canon(end) == Canonical("", true)
  {
    CountMany(end, 0, 1);
    assert Span(end[1..], CRLF) == 1 && end[..2] == end;
  }

  /** Three lone LFs, here each before a one-letter line, are enough to write past the end, even of
      a complete text. */
  lemma LoneBreaksOverrun(a: char, b: char, c: char, end: string) returns (text: string)
    requires a !in LWS && b !in LWS && c !in LWS
    requires |end| == 2 && end[0] == end[1] == '\n'
    ensures text == "\n" + [a] + ("\n" + [b] + ("\n" + [c] + end))
    ensures Canon(text).complete && |Canon(text).text| > |text|
  {
    BlankLine(end);
    var t1 := "\n" + [c] + end;
    LoneStep(c, end);
    var t2 := "\n" + [b] + t1;
    LoneStep(b, t1);
    text := "\n" + [a] + t2;
    LoneStep(a, t2);
  }

  lemma {:induction false} CanonNoNul(text: string)
    requires NUL !in text
    ensures NUL !in Canon(text).text
    decreases |text|
  {
    if text == [] || Closed(text) {
    } else {
      assert NUL !in Mark(text);
      CanonNoNul(text[Piece(text)..]);
    }
  }

  // ------------------------------------------------------------------ the loop

  lemma LetterStep(text: string)
    requires text != [] && text[0] !in LWS
    ensures Canon(text) == Then(text[..1], Canon(text[1..]))
  {
  }

  lemma WordParts(text: string, n: nat)
    requires 0 < n <= |text|
    ensures text[1..][n - 1..] == text[n..] && text[..1] + text[1..][..n - 1] == text[..n]
  {
  }

  lemma NoWord(text: string)
    ensures Canon(text) == Then(text[..0], Canon(text[0..]))
  {
    assert text[0..] == text;
  }

  /** A word is copied as it is. */
  lemma {:induction false} CanonWord(text: string, n: nat)
    requires n <= CSpan(text, LWS)
    ensures Canon(text) == Then(text[..n], Canon(text[n..]))
  {
    if n > 0 {
      LetterStep(text);
      CanonWord(text[1..], n - 1);
      WordParts(text, n);
      Chain(text[..1], text[1..][..n - 1], Canon(text[n..]));
    } else {
      NoWord(text);
    }
  }

  /** How often CR and LF occur in a run. */
  method CountBreaks(run: string) returns (crs: nat, lfs: nat)
    ensures crs == Count(run, '\r') && lfs == Count(run, '\n')
  {
    crs, lfs := 0, 0;
    var i := 0;
    while i < |run|
      invariant i <= |run|
      invariant crs + Count(run[i..], '\r') == Count(run, '\r')
      invariant lfs + Count(run[i..], '\n') == Count(run, '\n')
    {
      if run[i] == '\r' {
        crs := crs + 1;
      }
      if run[i] == '\n' {
        lfs := lfs + 1;
      }
      i := i + 1;
    }
  }

  /** The output so far, in a buffer that may be too small for it. */
  predicate Written(buf: seq<char>, out: string, overrun: bool) {
    overrun == (|out| > |buf|) && (!overrun ==> buf[..|out|] == out)
  }

  /** Copies s to the buffer at index `at`, if it is not past the end. */
  method Store(buf: array<char>, at: nat, s: string, past: bool, ghost out: string) returns (at': nat, overrun: bool)
    requires at == |out| && Written(buf[..], out, past)
    modifies buf
    ensures at' == |out + s| && Written(buf[..], out + s, overrun)
  {
    at' := at + |s|;
    overrun := past || at' > buf.Length;
    if !overrun {
      forall i | 0 <= i < |s| {
        buf[at + i] := s[i];
      }
    }
  }

  lemma CanonPiece(text: string)
    requires text != [] && !Closed(text)
    ensures Canon(text) == Then(Mark(text), Canon(text[Piece(text)..]))
  {
  }

  lemma GapPiece(text: string)
    requires text != [] && text[0] in SPHT
    ensures Piece(text) == Span(text, SPHT) && Mark(text) == " " && !Closed(text)
  {
  }

  /** Between two steps the output is the canonical form of what has been read. */
  ghost predicate Progress(buf: seq<char>, headers: string, c: nat, n: nat, overrun: bool, out: string) {
    && c <= |headers| && n == |out| && Written(buf, out, overrun)
    && Canon(headers) == Then(out, Canon(headers[c..]))
  }

  /** One more part of the output. */
  lemma NextPart(headers: string, c: nat, out: string, rest: string, mark: string, k: nat, after: string)
    requires c + k <= |headers| && rest == headers[c..] && after == rest[k..]
    requires Canon(headers) == Then(out, Canon(rest)) && Canon(rest) == Then(mark, Canon(after))
    ensures after == headers[c + k..] && Canon(headers) == Then(out + mark, Canon(after))
  {
    Chain(out, mark, Canon(after));
  }

  lemma ProgressMade(headers: string, c: nat, out: string, mark: string, c': nat, out': string,
                     buf: seq<char>, n: nat, overrun: bool)
    requires c <= c' <= |headers| && Canon(headers) == Then(out, Canon(headers[c..]))
    requires Canon(headers[c..]) == Then(mark, Canon(headers[c..][c' - c..])) && out' == out + mark
    requires n == |out'| && Written(buf, out', overrun)
    ensures Progress(buf, headers, c', n, overrun, out')
  {
    NextPart(headers, c, out, headers[c..], mark, c' - c, headers[c..][c' - c..]);
  }

  lemma PieceMade(headers: string, c: nat, out: string, c': nat, out': string, buf: seq<char>, n: nat, overrun: bool)
    requires c < |headers| && Canon(headers) == Then(out, Canon(headers[c..])) && !Closed(headers[c..])
    requires c' == c + Piece(headers[c..]) && out' == out + Mark(headers[c..])
    requires n == |out'| && Written(buf, out', overrun)
    ensures Progress(buf, headers, c', n, overrun, out')
  {
    CanonPiece(headers[c..]);
    ProgressMade(headers, c, out, Mark(headers[c..]), c', out', buf, n, overrun);
  }

  method CopyWord(buf: array<char>, headers: string, c: nat, n: nat, past: bool, ghost out: string)
    returns (c': nat, n': nat, overrun: bool, ghost out': string)
    requires Progress(buf[..], headers, c, n, past, out)
    modifies buf
    ensures Progress(buf[..], headers, c', n', overrun, out') && c <= c'
    ensures c' < |headers| ==> headers[c'] in LWS
  {
    var span := CSpan(headers[c..], LWS);
    n', overrun := Store(buf, n, headers[c..][..span], past, out);
    c', out' := c + span, out + headers[c..][..span];
    WordMade(headers, c, out, c', out', buf[..], n', overrun);
  }

  lemma WordMade(headers: string, c: nat, out: string, c': nat, out': string, buf: seq<char>, n: nat, overrun: bool)
    requires c <= |headers| && Canon(headers) == Then(out, Canon(headers[c..]))
    requires c' == c + CSpan(headers[c..], LWS) && out' == out + headers[c..][..CSpan(headers[c..], LWS)]
    requires n == |out'| && Written(buf, out', overrun)
    ensures Progress(buf, headers, c', n, overrun, out') && (c' < |headers| ==> headers[c'] in LWS)
  {
    var rest, span := headers[c..], CSpan(headers[c..], LWS);
    CanonWord(rest, span);
    ProgressMade(headers, c, out, rest[..span], c', out', buf, n, overrun);
    assert c' < |headers| ==> headers[c'] == rest[span];
  }

  /** Collapses a run of SP and HT. */
  method CopyGap(buf: array<char>, headers: string, c: nat, n: nat, past: bool, ghost out: string)
    returns (c': nat, n': nat, overrun: bool, ghost out': string)
    requires Progress(buf[..], headers, c, n, past, out)
    modifies buf
    ensures Progress(buf[..], headers, c', n', overrun, out') && c <= c'
    ensures c < |headers| && headers[c] in SPHT ==> c < c'
    ensures c < |headers| && headers[c] in CRLF ==> c == c'
  {
    c', n', overrun, out' := c, n, past, out;
    var span := Span(headers[c..], SPHT);
    if span > 0 {
      GapPiece(headers[c..]);
      n', overrun := Store(buf, n, " ", past, out);
      c', out' := c + span, out + " ";
      PieceMade(headers, c, out, c', out', buf[..], n', overrun);
    }
  }

  lemma BreakPiece(eol: string, span: nat, gap: nat)
    requires span == Span(eol, CRLF) > 0 && gap == Span(eol[span..], SPHT)
    ensures eol[0] in CRLF && Piece(eol) == span + gap
    ensures Mark(eol) == if gap > 0 then " " else "\r\n"
  {
  }

  /** A line break as the loop finds it, by its two spans. */
  lemma BreakCanon(eol: string, span: nat, gap: nat)
    requires span == Span(eol, CRLF) > 0 && !Closes(eol[..span]) && gap == Span(eol[span..], SPHT)
    ensures span + gap == Piece(eol) && Mark(eol) == (if gap > 0 then " " else "\r\n") && !Closed(eol)
  {
    BreakPiece(eol, span, gap);
  }

  /** Writes the mark of a line break. */
  method CopyMark(buf: array<char>, headers: string, c: nat, n: nat, past: bool, gap: bool, k: nat, ghost out: string)
    returns (c': nat, n': nat, overrun: bool, ghost out': string)
    requires Progress(buf[..], headers, c, n, past, out) && c < |headers| && !Closed(headers[c..])
    requires k == Piece(headers[c..]) && Mark(headers[c..]) == (if gap then " " else "\r\n")
    modifies buf
    ensures c' == c + k && Progress(buf[..], headers, c', n', overrun, out')
  {
    out' := out + Mark(headers[c..]);
    n', overrun := Store(buf, n, if gap then " " else "\r\n", past, out);
    c' := c + k;
    PieceMade(headers, c, out, c', out', buf[..], n', overrun);
  }

  /** Measures a run of CR and LF, and the SP and HT after it. */
  method ScanBreak(eol: string) returns (span: nat, gap: nat, closed: bool)
    requires eol != [] && eol[0] in CRLF
    ensures closed == Closed(eol)
    ensures !closed ==> span + gap == Piece(eol) && Mark(eol) == if gap > 0 then " " else "\r\n"
  {
    span, gap := Span(eol, CRLF), 0;
    var crs, lfs := CountBreaks(eol[..span]);
    closed := crs >= 2 || lfs >= 2;
    if !closed {
      gap := Span(eol[span..], SPHT);
      BreakCanon(eol, span, gap);
    }
  }

  /** Collapses a run of CR and LF, unless it closes the headers. */
  method CopyBreak(buf: array<char>, headers: string, c: nat, n: nat, past: bool, ghost out: string)
    returns (c': nat, n': nat, overrun: bool, closed: bool, ghost out': string)
    requires Progress(buf[..], headers, c, n, past, out)
    modifies buf
    ensures Progress(buf[..], headers, c', n', overrun, out') && c <= c'
    ensures closed ==> Closed(headers[c'..])
    ensures !closed && c < |headers| && headers[c] in CRLF ==> c < c'
  {
    c', n', overrun, closed, out' := c, n, past, false, out;
    if c < |headers| && headers[c] in CRLF {
      var span, gap;
      span, gap, closed := ScanBreak(headers[c..]);
      if !closed {
        c', n', overrun, out' := CopyMark(buf, headers, c, n, past, gap > 0, span + gap, out);
      }
    }
  }

  /** headers_canonicalize, up to the test of its result: the buffer it has filled, and whether it
      was successful or has written past the end. The parameter `len` of the source is not used. */
  method Canonicalize(headers: string) returns (buf: array<char>, success: bool, overrun: bool)
    ensures fresh(buf) && buf.Length == |headers| + 1
    ensures success == Canon(headers).complete
    ensures overrun <==> |Canon(headers).text| > |headers|
    ensures !overrun ==> var out := Canon(headers).text; buf[..|out| + 1] == out + [NUL]
  {
    buf := new char[|headers| + 1];
    var c: nat, n: nat := 0, 0;
    success, overrun := false, false;
    ghost var out := "";
    while c < |headers| && !success
      invariant fresh(buf) && Progress(buf[..], headers, c, n, overrun, out)
      invariant success ==> Closed(headers[c..])
      decreases !success, |headers| - c
    {
      c, n, overrun, out := CopyWord(buf, headers, c, n, overrun, out);
      c, n, overrun, out := CopyGap(buf, headers, c, n, overrun, out);
      c, n, overrun, success, out := CopyBreak(buf, headers, c, n, overrun, out);
    }
    assert Canon(headers) == Canonical(out, success);
    n, overrun := Store(buf, n, [NUL], overrun, out);
  }
}
