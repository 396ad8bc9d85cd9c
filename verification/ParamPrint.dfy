/** The printers of params.c: a loop over snprintf into a buffer of n characters, and the ends that
    params_snprint puts on what the loop has written. */
module ParamPrint {
  import opened Common
  import opened ParamList

  datatype Style = Query | Headers | Metatags | Paramtags | Unknown

  /** One entry, in the format of a style. */
  function Line(e: Entry, style: Style): string {
    match style
    case Query => e.key + "=" + e.value + "&"
    case Headers => e.key + ": " + e.value + "\r\n"
    case Metatags => "<meta name=\"" + e.key + "\" content=\"" + e.value + "\"/>\n"
    case Paramtags => "<param name=\"" + e.key + "\" content=\"" + e.value + "\"/>\n"
    case Unknown => ""
  }

  function Body(l: seq<Entry>, style: Style): string {
    if l == [] then "" else Line(l[0], style) + Body(l[1..], style)
  }

  lemma BodyCons(e: Entry, l: seq<Entry>, style: Style)
    ensures Body([e] + l, style) == Line(e, style) + Body(l, style)
  {
    assert ([e] + l)[1..] == l;
  }

  lemma {:induction false} BodySnoc(l: seq<Entry>, e: Entry, style: Style)
    ensures Body(l + [e], style) == Body(l, style) + Line(e, style)
  {
    if l == [] {
      assert [] + [e] == [e] + [];
      BodyCons(e, [], style);
    } else {
      assert l == [l[0]] + l[1..] && l + [e] == [l[0]] + (l[1..] + [e]);
      BodyCons(l[0], l[1..] + [e], style);
      BodySnoc(l[1..], e, style);
      Assoc(Line(l[0], style), Body(l[1..], style), Line(e, style));
    }
  }

  /** The lines of all entries, without the last '&' of a query and with an empty line after headers. */
  function Whole(body: string, style: Style): string {
    if style == Query && body != "" then body[..|body| - 1]
    else if style == Headers then body + "\r\n"
    else body
  }

  /** What a list is printed as. */
  function Text(l: seq<Entry>, style: Style): string {
    Whole(Body(l, style), style)
  }

  /** The first k characters of a text, NUL-terminated. */
  predicate Holds(buf: seq<char>, text: string, k: nat) {
    k <= |text| && k < |buf| && buf[..k] == text[..k] && buf[k] == NUL
  }

  function Min(a: int, b: int): int {
    if a <= b then a else b
  }

  // ------------------------------------------------------------------ the loop

  /** snprintf (buf + at, n, ...) for a text of this length. */
  method Snprintf(buf: array<char>, at: nat, n: nat, s: string) returns (len: nat)
    requires n > 0 ==> at + n <= buf.Length
    modifies buf
    ensures len == |s|
    ensures n == 0 ==> buf[..] == old(buf[..])
    ensures n > 0 ==> buf[..at] == old(buf[..at]) && Holds(buf[at..at + n], s, Min(|s|, n - 1))
  {
    len := |s|;
    if n > 0 {
      var m := Min(|s|, n - 1);
      forall i | 0 <= i < m {
        buf[at + i] := s[i];
      }
      buf[at + m] := NUL;
      assert forall i | 0 <= i < m :: buf[at + i] == s[i];
      assert buf[at..at + n][..m] == buf[at..at + m] == s[..m];
    }
  }

  /** After some lines the buffer holds as much of them as fits. */
  predicate Filled(buf: seq<char>, done: string) {
    |buf| > 0 ==> Holds(buf, done, Min(|done|, |buf| - 1))
  }

  /** Between two lines: the room left, and where it starts, if there is any. */
  predicate Cursor(buf: seq<char>, at: nat, n: nat, done: string) {
    && n == (if |done| <= |buf| then |buf| - |done| else 0)
    && (n > 0 ==> at == |done| && buf[..at] == done)
  }

  lemma FillMore(was: seq<char>, buf: seq<char>, done: string, s: string)
    requires |was| == |buf| && |done| < |buf| && was[..|done|] == done == buf[..|done|]
    requires Holds(buf[|done|..], s, Min(|s|, |buf| - |done| - 1))
    ensures Filled(buf, done + s)
    ensures |done + s| < |buf| ==> buf[..|done + s|] == done + s
  {
    var m := Min(|s|, |buf| - |done| - 1);
    assert buf[..|done| + m] == done + s[..m] by {
      assert buf[..|done| + m] == buf[..|done|] + buf[|done|..][..m];
    }
    assert (done + s)[..|done| + m] == done + s[..m];
  }

  lemma FillNone(buf: seq<char>, done: string, s: string)
    requires |done| >= |buf| && Filled(buf, done)
    ensures Filled(buf, done + s)
  {
    if |buf| > 0 {
      assert (done + s)[..|buf| - 1] == done[..|buf| - 1];
    }
  }

  /** The body of the loop: one line, and what it leaves of the room. */
  method PrintLine(buf: array<char>, at: nat, n: nat, line: string, ghost done: string)
    returns (len: nat, at': nat, n': nat)
    requires Cursor(buf[..], at, n, done) && (n == 0 ==> Filled(buf[..], done))
    modifies buf
    ensures len == |line| && Cursor(buf[..], at', n', done + line) && Filled(buf[..], done + line)
  {
    ghost var was := buf[..];
    len := Snprintf(buf, at, n, line);
    if n > 0 {
      assert buf[at..at + n] == buf[..][at..] && buf[..][..at] == was[..at];
      FillMore(was, buf[..], done, line);
    } else {
      FillNone(buf[..], done, line);
    }
    if len <= n {
      at', n' := at + len, n - len;
    } else {
      at', n' := 0, 0;
    }
  }

  lemma BodyUpTo(l: seq<Entry>, i: nat, style: Style)
    requires i < |l|
    ensures Body(l[..i + 1], style) == Body(l[..i], style) + Line(l[i], style)
  {
    BodySnoc(l[..i], l[i], style);
    assert l[..i] + [l[i]] == l[..i + 1];
  }

  /** snprint_params_format into a buffer of n characters. */
  method SnprintParamsFormat(buf: array<char>, l: seq<Entry>, style: Style) returns (total: nat)
    modifies buf
    ensures total == |Body(l, style)|
    ensures l == [] ==> buf[..] == old(buf[..])
    ensures l != [] ==> Filled(buf[..], Body(l, style))
  {
    total := 0;
    var at: nat, n: nat, i: nat := 0, buf.Length, 0;
    ghost var done := "";
    while i < |l|
      invariant i <= |l| && done == Body(l[..i], style) && total == |done|
      invariant Cursor(buf[..], at, n, done)
      invariant if i == 0 then buf[..] == old(buf[..]) else Filled(buf[..], done)
    {
      var line := Line(l[i], style);
      var len;
      len, at, n := PrintLine(buf, at, n, line, done);
      BodyUpTo(l, i, style);
      done := done + line;
      total := total + len;
      i := i + 1;
    }
    assert l[..i] == l;
  }

  // ------------------------------------------------------------------ the whole text

  /** The number of values of size_t. */
  const SIZE: nat := 0x1_0000_0000_0000_0000

  /** a - b in size_t. */
  function Minus(a: nat, b: nat): nat
    requires a < SIZE && b < SIZE
  {
    if a >= b then a - b else SIZE + a - b
  }

  /** A size_t as the int that params_snprint returns. */
  function AsInt(len: nat): int {
    if len < SIZE / 2 then len else len - SIZE
  }

  /** Stores a character, if the index is inside the buffer. */
  method Store(buf: array<char>, at: nat, c: char, past: bool) returns (overrun: bool)
    modifies buf
    ensures overrun == (past || at >= buf.Length)
    ensures buf[..] == if at < buf.Length then old(buf[..])[at := c] else old(buf[..])
  {
    overrun := past || at >= buf.Length;
    if at < buf.Length {
      buf[at] := c;
    }
  }

  /** How many characters of a text a call keeps: all if there is room for them and the NUL, else
      what the loop has written. */
  function Kept(body: string, style: Style, n: nat): nat
    requires n > 0
  {
    if |Whole(body, style)| < n then |Whole(body, style)| else Min(|body|, n - 1)
  }

  /** params_snprint writes past its buffer exactly for these sizes. */
  predicate Overruns(body: string, style: Style, n: nat) {
    || (style == Query && body != "" && n == |Whole(body, style)|)
    || (style == Headers && n == 1)
  }

  lemma {:induction false} BodyLength(l: seq<Entry>, style: Style)
    requires style != Unknown
    ensures |Body(l, style)| >= 2 * |l|
  {
    if l == [] {
    } else {
      BodyLength(l[1..], style);
    }
  }

  /** What the ends make of a buffer when there are no lines: an empty line, if there is room. */
  predicate EmptyEnds(was: seq<char>, now: seq<char>, style: Style) {
    && |now| == |was|
    && if style == Headers && |was| > 2 then Holds(now, "\r\n", 2) && now[3..] == was[3..] else now == was
  }

  /** Takes the last '&' off a query. */
  method EndQuery(buf: array<char>, total: nat, ghost body: string) returns (len: nat, overrun: bool)
    requires total == |body|
    requires body != "" ==> Filled(buf[..], body)
    requires buf.Length + |body| + 2 < SIZE
    modifies buf
    ensures len == if body == "" then SIZE - 1 else |body| - 1
    ensures overrun <==> body != "" && buf.Length == |body| - 1
    ensures !overrun && body != "" && buf.Length > 0 ==> Holds(buf[..], body[..|body| - 1], Min(|body|, buf.Length) - 1)
    ensures body == "" ==> buf[..] == old(buf[..])
  {
    ghost var was := buf[..];
    len, overrun := Minus(total, 1), false;
    if len <= buf.Length {
      overrun := Store(buf, len, NUL, overrun);
    }
    if !overrun && body != "" && buf.Length > 0 {
      var k := Min(|body|, buf.Length) - 1;
      assert buf[..k] == was[..k] == body[..k];
    }
  }

  /** Puts an empty line after headers. */
  method EndHeaders(buf: array<char>, total: nat, ghost body: string) returns (len: nat, overrun: bool)
    requires total == |body|
    requires body != "" ==> Filled(buf[..], body)
    requires buf.Length + |body| + 2 < SIZE
    modifies buf
    ensures len == |body| + 2
    ensures overrun <==> buf.Length == 1
    ensures !overrun && body != "" && buf.Length > 0 ==>
              Holds(buf[..], body + "\r\n", if len < buf.Length then len else Min(|body|, buf.Length - 1))
    ensures !overrun && body == "" ==> EmptyEnds(old(buf[..]), buf[..], Headers)
  {
    ghost var was, n := buf[..], buf.Length;
    len, overrun := total, false;
    if buf.Length > 0 && len < Minus(buf.Length, 2) {
      overrun := Store(buf, len, '\r', overrun);
      overrun := Store(buf, len + 1, '\n', overrun);
      overrun := Store(buf, len + 2, NUL, overrun);
      if n > 1 && body != "" {
        assert buf[..len] == was[..len] == body;
        assert buf[..len + 2] == buf[..len] + ['\r', '\n'];
      }
    } else if n > 0 && body != "" {
      var k := Min(|body|, n - 1);
      assert (body + "\r\n")[..k] == body[..k];
    }
    len := len + 2;
  }

  /** The ends, for all styles. */
  method EndText(buf: array<char>, total: nat, style: Style, ghost body: string) returns (len: nat, overrun: bool)
    requires total == |body| && (body != "" ==> Filled(buf[..], body))
    requires buf.Length + |body| + 2 < SIZE
    modifies buf
    ensures len == if style == Query && body == "" then SIZE - 1 else |Whole(body, style)|
    ensures overrun <==> Overruns(body, style, buf.Length)
    ensures !overrun && body != "" && buf.Length > 0 ==>
              Holds(buf[..], Whole(body, style), Kept(body, style, buf.Length))
    ensures !overrun && body == "" ==> EmptyEnds(old(buf[..]), buf[..], style)
  {
    len, overrun := total, false;
    if style == Query {
      len, overrun := EndQuery(buf, total, body);
    } else if style == Headers {
      len, overrun := EndHeaders(buf, total, body);
    }
  }

  /** params_snprint. The length it returns does not depend on the size of the buffer, and a buffer
      that is longer than that holds the whole text. */
  method SnprintParams(buf: array<char>, l: seq<Entry>, style: Style) returns (ret: int, overrun: bool)
    requires buf.Length + |Body(l, style)| + 2 < SIZE / 2
    modifies buf
    ensures ret == if style == Unknown then 0 else if style == Query && l == [] then -1 else |Text(l, style)|
    ensures overrun <==> style != Unknown && Overruns(Body(l, style), style, buf.Length)
    ensures !overrun && l != [] && style != Unknown && buf.Length > 0 ==>
              Holds(buf[..], Text(l, style), Kept(Body(l, style), style, buf.Length))
    ensures !overrun && (l == [] || style == Unknown) ==> EmptyEnds(old(buf[..]), buf[..], style)
  {
    if style == Unknown {
      return 0, false;
    }
    ghost var body := Body(l, style);
    BodyLength(l, style);
    var len := SnprintParamsFormat(buf, l, style);
    len, overrun := EndText(buf, len, style, body);
    ret := AsInt(len);
  }
}
