/** What the printers write, the parsers read back: query strings and headers. */
module ParamRoundTrip {
  import opened Common
  import opened HeaderText
  import opened ParamList
  import opened ParamPrint
  import opened ParamTokens

  const QUERY: Delims := Delims({'='}, {'&'})
  const HEADERS: Delims := Delims({':', ' '}, {'\r', '\n'})

  predicate Avoids(s: string, chars: set<char>) {
    forall i | 0 <= i < |s| :: s[i] !in chars
  }

  /** An entry that a field can spell. */
  predicate Plain(e: Entry, d: Delims) {
    && e.key != "" && Avoids(e.key, d.val + d.end)
    && Avoids(e.value, d.end) && (e.value != "" ==> e.value[0] !in d.val)
  }

  predicate AllPlain(l: seq<Entry>, d: Delims) {
    forall i | 0 <= i < |l| :: Plain(l[i], d)
  }

  // ------------------------------------------------------------------ fields that are put together

  function Field(e: Entry, mid: string): string {
    e.key + mid + e.value
  }

  /** Fields with an end between each two. */
  function Glue(l: seq<Entry>, mid: string, end: string): string {
    if l == [] then ""
    else if |l| == 1 then Field(l[0], mid)
    else Field(l[0], mid) + end + Glue(l[1..], mid, end)
  }

  predicate Glues(mid: string, end: string, d: Delims) {
    && d.Ok() && Mids(mid, d) && end != ""
    && (forall i | 0 <= i < |end| :: end[i] in d.end)
  }

  lemma {:induction false} CSpanPast(a: string, b: string, stop: set<char>)
    requires Avoids(a, stop)
    ensures CSpan(a + b, stop) == |a| + CSpan(b, stop)
    decreases |a|
  {
    if a == "" {
      assert a + b == b;
    } else {
      assert (a + b)[1..] == a[1..] + b;
      CSpanPast(a[1..], b, stop);
    }
  }

  lemma {:induction false} SpanPast(a: string, b: string, accept: set<char>)
    requires forall i | 0 <= i < |a| :: a[i] in accept
    ensures Span(a + b, accept) == |a| + Span(b, accept)
    decreases |a|
  {
    if a == "" {
      assert a + b == b;
    } else {
      assert (a + b)[1..] == a[1..] + b;
      SpanPast(a[1..], b, accept);
    }
  }

  predicate Mids(mid: string, d: Delims) {
    mid != "" && forall i | 0 <= i < |mid| :: mid[i] in d.val
  }

  /** Where the key of a field ends, and how long the delimiters after it are. */
  lemma KeySpan(key: string, mid: string, after: string, text: string, d: Delims)
    requires Avoids(key, d.val) && Mids(mid, d) && (after != "" ==> after[0] !in d.val)
    requires text == key + (mid + after)
    ensures CSpan(text, d.val) == |key| && Span(text[|key|..], d.val) == |mid|
  {
    CSpanPast(key, mid + after, d.val);
    assert text[|key|..] == mid + after;
    SpanPast(mid, after, d.val);
  }

  /** Where a field ends in a text that starts with it. */
  lemma FieldEnd(e: Entry, mid: string, rest: string, d: Delims)
    requires Plain(e, d) && d.Ok() && Mids(mid, d) && (rest != "" ==> rest[0] in d.end)
    ensures CSpan(Field(e, mid) + rest, d.end) == |Field(e, mid)|
  {
    assert Avoids(Field(e, mid), d.end) by {
      FieldAvoids(e, mid, d.end);
    }
    CSpanPast(Field(e, mid), rest, d.end);
  }

  lemma FieldAvoids(e: Entry, mid: string, chars: set<char>)
    requires Avoids(e.key, chars) && Avoids(mid, chars) && Avoids(e.value, chars)
    ensures Avoids(Field(e, mid), chars)
  {
  }

  /** Where its key ends, and how long the delimiters after it are. */
  lemma FieldKey(e: Entry, mid: string, rest: string, d: Delims)
    requires Plain(e, d) && d.Ok() && Mids(mid, d) && (rest != "" ==> rest[0] in d.end)
    ensures CSpan(Field(e, mid) + rest, d.val) == |e.key|
    ensures Span((Field(e, mid) + rest)[|e.key|..], d.val) == |mid|
  {
    var text, after := Field(e, mid) + rest, e.value + rest;
    assert text == e.key + (mid + after);
    assert after != "" ==> after[0] == if e.value == "" then rest[0] else e.value[0];
    KeySpan(e.key, mid, after, text, d);
  }

  lemma FieldSlices(e: Entry, mid: string, rest: string, text: string, j: nat)
    requires text == Field(e, mid) + rest && j <= |rest|
    ensures text[..|e.key|] == e.key && text[|e.key| + |mid|..|Field(e, mid)|] == e.value
    ensures text[|Field(e, mid)|..] == rest && text[|Field(e, mid)| + j..] == rest[j..]
  {
  }

  /** The tokenizer's first field of such a text, and what it leaves. */
  lemma FieldReads(e: Entry, mid: string, rest: string, text: string, d: Delims)
    requires Plain(e, d) && d.Ok() && Mids(mid, d) && (rest != "" ==> rest[0] in d.end)
    requires text == Field(e, mid) + rest
    ensures GoodField(text, d) && FirstField(text, d) == e && AfterField(text, d) == rest[Span(rest, d.end)..]
  {
    FieldEnd(e, mid, rest, d);
    FieldKey(e, mid, rest, d);
    FieldSlices(e, mid, rest, text, Span(rest, d.end));
    FieldIs(text, d, |e.key|, |mid|, |Field(e, mid)|, Span(rest, d.end));
    assert text[0] == e.key[0];
  }

  lemma GlueStarts(l: seq<Entry>, mid: string, end: string, d: Delims)
    requires l != [] && AllPlain(l, d)
    ensures Glue(l, mid, end) != "" && Glue(l, mid, end)[0] !in d.end
  {
    assert Plain(l[0], d);
  }

  /** The tokenizer takes apart what was put together. */
  lemma {:induction false} FieldsOfGlue(l: seq<Entry>, mid: string, end: string, d: Delims)
    requires Glues(mid, end, d) && AllPlain(l, d)
    ensures WellFormed(Glue(l, mid, end), d) && Fields(Glue(l, mid, end), d) == l
    decreases |l|
  {
    if l == [] {
    } else {
      var text, tail := Glue(l, mid, end), Glue(l[1..], mid, end);
      assert Plain(l[0], d) && AllPlain(l[1..], d);
      var rest := if |l| == 1 then "" else end + tail;
      assert text == Field(l[0], mid) + rest;
      FieldReads(l[0], mid, rest, text, d);
      if |l| > 1 {
        GlueStarts(l[1..], mid, end, d);
        SpanPast(end, tail, d.end);
        assert rest[|end|..] == tail;
      }
      FieldsOfGlue(l[1..], mid, end, d);
      GoodFields(text, tail, l, d);
    }
  }

  lemma GoodFields(text: string, tail: string, l: seq<Entry>, d: Delims)
    requires d.Ok() && GoodField(text, d) && l != [] && FirstField(text, d) == l[0] && AfterField(text, d) == tail
    requires WellFormed(tail, d) && Fields(tail, d) == l[1..]
    ensures WellFormed(text, d) && Fields(text, d) == l
  {
  }

  /** Entries with distinct names are appended as they are. */
  lemma {:induction false} MergeDistinct(dest: seq<Entry>, src: seq<Entry>)
    requires Unique(dest + src)
    ensures Merge(dest, src) == dest + src
    decreases |src|
  {
    if src == [] {
      assert dest + src == dest;
    } else {
      var all, e := dest + src, src[0];
      forall i | 0 <= i < |dest| ensures !Same(dest[i].key, e.key) {
        assert all[i] == dest[i] && all[|dest|] == e;
      }
      GetMissing(dest, e.key);
      assert all == dest + [e] + src[1..];
      MergeDistinct(dest + [e], src[1..]);
    }
  }

  /** The tokenizer takes this text for this list. */
  ghost predicate ReadsAs(text: string, l: seq<Entry>, d: Delims)
    requires d.Ok()
  {
    WellFormed(text, d) && Merge([], Fields(text, d)) == l
  }

  lemma GlueReads(l: seq<Entry>, mid: string, end: string, d: Delims)
    requires Glues(mid, end, d) && AllPlain(l, d) && Unique(l)
    ensures ReadsAs(Glue(l, mid, end), l, d)
  {
    FieldsOfGlue(l, mid, end, d);
    assert [] + l == l;
    MergeDistinct([], l);
  }

  // ------------------------------------------------------------------ what the tokenizer can return

  lemma FirstFieldPlain(text: string, d: Delims)
    requires d.Ok() && GoodField(text, d)
    ensures Plain(FirstField(text, d), d)
    ensures |AfterField(text, d)| < |text|
    ensures forall c | c !in text ::
              c !in FirstField(text, d).key && c !in FirstField(text, d).value && c !in AfterField(text, d)
  {
    var v, e := CSpan(text, d.val), CSpan(text, d.end);
    var n, m := Span(text[v..], d.val), Span(text[e..], d.end);
    FieldIs(text, d, v, n, e, m);
    assert v + n < e ==> text[v + n..e][0] == text[v..][n];
    assert Avoids(text[..v], d.val + d.end);
    var value := text[v + n..e];
    forall i | 0 <= i < |value| ensures value[i] !in d.end {
      assert value[i] == text[v + n + i];
    }
  }

  predicate Clean(l: seq<Entry>, d: Delims, bad: char) {
    AllPlain(l, d) && forall i | 0 <= i < |l| :: bad !in l[i].key && bad !in l[i].value
  }

  lemma AppendClean(l: seq<Entry>, e: Entry, d: Delims, bad: char)
    requires Clean(l, d, bad) && Plain(e, d) && bad !in e.key && bad !in e.value
    requires ',' !in d.val && ',' !in d.end && bad != ','
    ensures Clean(Append(l, e.key, e.value), d, bad)
  {
    var f := Find(l, e.key, 0);
    if f < |l| {
      var value := l[f].value + "," + e.value;
      assert Plain(l[f], d) && bad !in l[f].value;
      assert Plain(l[f].(value := value), d);
    }
  }

  /** Whatever the tokenizer returns has distinct names and entries that a field can spell; a
      character that is not in the text is not in them, unless it is the comma. */
  lemma {:induction false} MergeClean(l: seq<Entry>, text: string, d: Delims, bad: char)
    requires d.Ok() && WellFormed(text, d) && bad !in text && Unique(l) && Clean(l, d, bad)
    requires ',' !in d.val && ',' !in d.end && bad != ','
    ensures Unique(Merge(l, Fields(text, d))) && Clean(Merge(l, Fields(text, d)), d, bad)
    decreases |text|
  {
    if NoField(text, d) {
    } else {
      var e := FirstField(text, d);
      FirstFieldPlain(text, d);
      AppendClean(l, e, d, bad);
      AppendReads(l, e.key, e.value, e.key);
      MergeFields(l, text, d);
      MergeClean(Append(l, e.key, e.value), AfterField(text, d), d, bad);
    }
  }

  // ------------------------------------------------------------------ queries

  lemma {:induction false} BodyIsGlue(l: seq<Entry>, style: Style, mid: string, end: string)
    requires l != [] && forall e: Entry :: Line(e, style) == Field(e, mid) + end
    ensures Body(l, style) == Glue(l, mid, end) + end
  {
    var line := Field(l[0], mid);
    assert l == [l[0]] + l[1..];
    BodyCons(l[0], l[1..], style);
    if |l| == 1 {
      assert Body(l[1..], style) == "" && (line + end) + "" == line + end;
    } else {
      BodyIsGlue(l[1..], style, mid, end);
      Assoc(line + end, Glue(l[1..], mid, end), end);
    }
  }

  lemma QueryText(l: seq<Entry>)
    requires l != []
    ensures Text(l, Query) == Glue(l, "=", "&")
  {
    forall e: Entry ensures Line(e, Query) == Field(e, "=") + "&" {
    }
    BodyIsGlue(l, Query, "=", "&");
  }

  /** A query string is read back as the list it was printed from exactly if names are distinct but
      for case and not empty, no name has '=' or '&', and no value has '&' or starts with '='. */
  lemma QueryRoundTrip(l: seq<Entry>)
    requires l != [] && NUL !in Text(l, Query)
    ensures ReadsAs(Text(l, Query), l, QUERY) <==> Unique(l) && AllPlain(l, QUERY)
  {
    QueryText(l);
    if Unique(l) && AllPlain(l, QUERY) {
      GlueReads(l, "=", "&", QUERY);
    } else if ReadsAs(Text(l, Query), l, QUERY) {
      MergeClean([], Text(l, Query), QUERY, NUL);
    }
  }

  // ------------------------------------------------------------------ tags

  /** What is between the quotes of a text, and around them. */
  function Quotation(s: string): seq<string>
    decreases |s|
  {
    var i := CSpan(s, {'"'});
    if i == |s| then [s] else [s[..i]] + Quotation(s[i + 1..])
  }

  lemma QuotationOf(a: string, b: string)
    requires '"' !in a
    ensures Quotation(a + ("\"" + b)) == [a] + Quotation(b)
  {
    assert Avoids(a, {'"'});
    CSpanPast(a, "\"" + b, {'"'});
    FirstPart(a, "\"" + b, b);
  }

  lemma FirstPart(a: string, rest: string, b: string)
    requires rest == "\"" + b
    ensures (a + rest)[..|a|] == a && (a + rest)[|a| + 1..] == b && CSpan(rest, {'"'}) == 0
  {
  }

  function Quoting(parts: seq<string>): string {
    if parts == [] then "" else if |parts| == 1 then parts[0] else parts[0] + ("\"" + Quoting(parts[1..]))
  }

  lemma {:induction false} QuotationQuoting(parts: seq<string>)
    requires parts != [] && forall i | 0 <= i < |parts| :: '"' !in parts[i]
    ensures Quotation(Quoting(parts)) == parts
  {
    if |parts| == 1 {
      NoQuotation(parts[0]);
    } else {
      Uncons(parts);
      QuotingCons(parts[0], parts[1..], parts);
      QuotationOf(parts[0], Quoting(parts[1..]));
      QuotationQuoting(parts[1..]);
    }
  }

  lemma {:induction false} UnquotedParts(s: string)
    ensures forall i | 0 <= i < |Quotation(s)| :: '"' !in Quotation(s)[i]
    decreases |s|
  {
    var i := CSpan(s, {'"'});
    if i == |s| {
      assert forall j | 0 <= j < |s| :: s[j] != '"';
    } else {
      UnquotedParts(s[i + 1..]);
      assert forall j | 0 <= j < i :: s[j] != '"';
    }
  }

  /** Name and value of an entry are the two attributes of its tag, and can be told apart in it, exactly
      if neither holds a quote. */
  lemma TagAttributes(e: Entry, style: Style)
    requires style == Metatags || style == Paramtags
    ensures Quotation(Line(e, style))
         == [if style == Metatags then "<meta name=" else "<param name=", e.key, " content=", e.value, "/>\n"]
       <==> '"' !in e.key && '"' !in e.value
  {
    var tag := if style == Metatags then "<meta name=" else "<param name=";
    if '"' !in e.key && '"' !in e.value {
      TagParts(e, style, tag);
    } else {
      var parts := [tag, e.key, " content=", e.value, "/>\n"];
      UnquotedParts(Line(e, style));
      assert parts[1] == e.key && parts[3] == e.value;
    }
  }

  lemma TagParts(e: Entry, style: Style, tag: string)
    requires style == Metatags || style == Paramtags
    requires tag == (if style == Metatags then "<meta name=" else "<param name=")
    requires '"' !in e.key && '"' !in e.value
    ensures Quotation(Line(e, style)) == [tag, e.key, " content=", e.value, "/>\n"]
  {
    var parts := [tag, e.key, " content=", e.value, "/>\n"];
    TagText(e, style, tag);
    FiveParts(tag, e.key, " content=", e.value, "/>\n");
    QuotationQuoting(parts);
  }

  lemma TagText(e: Entry, style: Style, tag: string)
    requires style == Metatags || style == Paramtags
    requires tag == (if style == Metatags then "<meta name=" else "<param name=")
    ensures Line(e, style) == tag + ("\"" + (e.key + ("\"" + (" content=" + ("\"" + (e.value + ("\"" + "/>\n")))))))
  {
    var opening := tag + "\"";
    assert opening == if style == Metatags then "<meta name=\"" else "<param name=\"";
    TagJoined(tag, e.key, " content=", e.value, "/>\n", opening, "\" content=\"", "\"/>\n");
  }

  lemma TagJoined(tag: string, a: string, b: string, c: string, d: string, start: string, mid: string, end: string)
    requires start == tag + "\"" && mid == "\"" + b + "\"" && end == "\"" + d
    ensures start + a + mid + c + end == tag + ("\"" + (a + ("\"" + (b + ("\"" + (c + ("\"" + d)))))))
  {
  }

  lemma QuotingCons(a: string, rest: seq<string>, all: seq<string>)
    requires rest != [] && all == [a] + rest
    ensures Quoting(all) == a + ("\"" + Quoting(rest))
  {
    assert all[1..] == rest;
  }

  lemma FiveParts(a: string, b: string, c: string, d: string, e: string)
    ensures Quoting([a, b, c, d, e]) == a + ("\"" + (b + ("\"" + (c + ("\"" + (d + ("\"" + e)))))))
  {
    QuotingCons(a, [b, c, d, e], [a, b, c, d, e]);
    QuotingCons(b, [c, d, e], [b, c, d, e]);
    QuotingCons(c, [d, e], [c, d, e]);
    QuotingCons(d, [e], [d, e]);
  }

  /** The text of a list as tags is the tags of its entries, in order, and nothing else. */
  lemma TagsInOrder(l: seq<Entry>, e: Entry, style: Style)
    requires style == Metatags || style == Paramtags
    ensures Text([], style) == "" && Text(l + [e], style) == Text(l, style) + Line(e, style)
  {
    BodySnoc(l, e, style);
  }

  lemma NoQuotation(s: string)
    requires '"' !in s
    ensures Quotation(s) == [s]
  {
    assert Avoids(s, {'"'}) && s + "" == s;
    CSpanPast(s, "", {'"'});
  }

  // ------------------------------------------------------------------ headers

  /** A value with each run of SP and HT made one SP. */
  function Squeeze(v: string): string
    decreases |v|
  {
    if v == "" then ""
    else if v[0] in SPHT then " " + Squeeze(v[Span(v, SPHT)..])
    else v[..1] + Squeeze(v[1..])
  }

  function SqueezeValue(e: Entry): Entry {
    e.(value := Squeeze(e.value))
  }

  function Squeezed(l: seq<Entry>): seq<Entry> {
    if l == [] then [] else [SqueezeValue(l[0])] + Squeezed(l[1..])
  }

  /** An entry that a header line can spell. */
  predicate Spelled(e: Entry) {
    Plain(e, HEADERS) && '\t' !in e.key && (e.value != "" ==> e.value[0] != '\t')
  }

  predicate AllSpelled(l: seq<Entry>) {
    forall i | 0 <= i < |l| :: Spelled(l[i])
  }

  lemma SpanStops(a: string, b: string, accept: set<char>)
    requires b != "" && b[0] !in accept
    ensures Span(a + b, accept) == Span(a, accept)
  {
    SpanMore(a, b, accept);
    if Span(a, accept) == |a| {
      SpanPast(a, b, accept);
    }
  }

  lemma LinePiece(line: string, rest: string) returns (k: nat, mark: string)
    requires line != "" && Avoids(line, CRLF) && rest != "" && rest[0] in CRLF
    ensures 0 < k <= |line| && Squeeze(line) == mark + Squeeze(line[k..])
    ensures Canon(line + rest) == Then(mark, Canon(line[k..] + rest))
  {
    var text := line + rest;
    k := if line[0] in SPHT then Span(line, SPHT) else 1;
    mark := if line[0] in SPHT then " " else line[..1];
    SpanStops(line, rest, SPHT);
    assert text[..1] == line[..1] && text[k..] == line[k..] + rest;
    assert Piece(text) == k && Mark(text) == mark;
  }

  /** A line without breaks is squeezed. */
  lemma {:induction false} CanonLine(line: string, rest: string)
    requires Avoids(line, CRLF) && rest != "" && rest[0] in CRLF
    ensures Canon(line + rest) == Then(Squeeze(line), Canon(rest))
    decreases |line|
  {
    if line == "" {
      assert line + rest == rest;
    } else {
      var k, mark := LinePiece(line, rest);
      CanonLine(line[k..], rest);
      Chain(mark, Squeeze(line[k..]), Canon(rest));
    }
  }

  lemma {:induction false} SqueezeWord(word: string, v: string)
    requires Avoids(word, SPHT)
    ensures Squeeze(word + v) == word + Squeeze(v)
  {
    if word == "" {
      assert word + v == v;
    } else {
      var all := word + v;
      assert all[1..] == word[1..] + v && all[..1] == word[..1];
      SqueezeWord(word[1..], v);
      assert word[..1] + (word[1..] + Squeeze(v)) == word + Squeeze(v);
    }
  }

  lemma SqueezeLine(e: Entry)
    requires Spelled(e)
    ensures Squeeze(Field(e, ": ")) == Field(SqueezeValue(e), ": ") && Avoids(Field(e, ": "), CRLF)
  {
    FieldParts(e.key, e.value);
    FieldParts(e.key, Squeeze(e.value));
    SqueezeWord(e.key + ":", " " + e.value);
    SqueezeGap(e.value);
  }

  lemma FieldParts(key: string, value: string)
    ensures Field(Entry(key, value), ": ") == (key + ":") + (" " + value)
  {
  }

  lemma SqueezeGap(v: string)
    requires v != "" ==> v[0] !in SPHT
    ensures Squeeze(" " + v) == " " + Squeeze(v)
  {
    var text := " " + v;
    assert text[1..] == v && Span(v, SPHT) == 0;
    assert Span(text, SPHT) == 1;
  }

  /** A line break before a line that does not start with white space is kept. */
  lemma BreakStep(rest: string)
    requires rest != "" && rest[0] !in LWS
    ensures Canon("\r\n" + rest) == Then("\r\n", Canon(rest))
  {
    var text := "\r\n" + rest;
    SpanPast("\r\n", rest, CRLF);
    assert text[2..] == rest && text[..2] == "\r\n";
    OneBreak(text[..2]);
    BreakCanon(text, 2, 0);
    CanonPiece(text);
  }

  lemma OneBreak(eol: string)
    requires eol == "\r\n"
    ensures !Closes(eol)
  {
    assert eol[1..] == "\n";
    assert Count("\n", '\r') == 0 && Count("\n", '\n') == 1;
  }

  lemma EmptyLine(end: string)
    requires end == "\r\n\r\n"
    ensures Canon(end) == Canonical("", true)
  {
    SpanPast(end, "", CRLF);
    assert end + "" == end && end[..4] == end;
    CountMany(end, 0, 2);
  }

  lemma GlueStartsPlain(l: seq<Entry>)
    requires l != [] && AllSpelled(l)
    ensures Glue(l, ": ", "\r\n") != "" && Glue(l, ": ", "\r\n")[0] !in LWS
  {
    assert Spelled(l[0]);
  }

  /** The canonical form of lines of headers and the empty line after them. */
  lemma {:induction false} CanonGlue(l: seq<Entry>, end: string)
    requires l != [] && AllSpelled(l) && end == "\r\n\r\n"
    ensures Canon(Glue(l, ": ", "\r\n") + end) == Canonical(Glue(Squeezed(l), ": ", "\r\n"), true)
  {
    var line := Field(l[0], ": ");
    assert Spelled(l[0]);
    SqueezeLine(l[0]);
    if |l| == 1 {
      CanonLine(line, end);
      EmptyLine(end);
      assert Squeezed(l[1..]) == [];
    } else {
      var tail := Glue(l[1..], ": ", "\r\n");
      var lines := tail + end;
      assert AllSpelled(l[1..]);
      GlueStartsPlain(l[1..]);
      CanonGlue(l[1..], end);
      CanonLine(line, "\r\n" + lines);
      BreakStep(lines);
      GlueAssoc(line, "\r\n", tail, end);
      Chain(Squeeze(line), "\r\n", Canon(lines));
      SqueezedTail(l);
    }
  }

  lemma GlueAssoc(a: string, b: string, c: string, d: string)
    ensures (a + b + c) + d == a + (b + (c + d))
  {
  }

  lemma SqueezedTail(l: seq<Entry>)
    requires |l| > 1
    ensures Glue(Squeezed(l), ": ", "\r\n")
         == (Field(SqueezeValue(l[0]), ": ") + "\r\n") + Glue(Squeezed(l[1..]), ": ", "\r\n")
  {
    assert Squeezed(l)[1..] == Squeezed(l[1..]);
  }

  lemma {:induction false} SqueezeFrom(v: string, chars: set<char>)
    requires Avoids(v, chars) && ' ' !in chars
    ensures Avoids(Squeeze(v), chars) && |Squeeze(v)| <= |v|
    ensures v != "" ==> Squeeze(v) != "" && (v[0] !in SPHT ==> Squeeze(v)[0] == v[0])
    decreases |v|
  {
    if v == "" {
    } else {
      SqueezeFrom(v[if v[0] in SPHT then Span(v, SPHT) else 1..], chars);
    }
  }

  lemma {:induction false} SqueezedIs(l: seq<Entry>)
    requires AllSpelled(l)
    ensures |Squeezed(l)| == |l| && forall i | 0 <= i < |l| :: Squeezed(l)[i] == SqueezeValue(l[i])
    ensures AllPlain(Squeezed(l), HEADERS)
  {
    if l == [] {
    } else {
      assert Spelled(l[0]);
      SqueezeFrom(l[0].value, HEADERS.end);
      SqueezedIs(l[1..]);
    }
  }

  lemma HeadersText(l: seq<Entry>)
    requires l != []
    ensures Text(l, Headers) == Glue(l, ": ", "\r\n") + "\r\n\r\n"
  {
    forall e: Entry ensures Line(e, Headers) == Field(e, ": ") + "\r\n" {
    }
    BodyIsGlue(l, Headers, ": ", "\r\n");
  }

  lemma HeadersCanon(l: seq<Entry>)
    requires l != [] && AllSpelled(l)
    ensures Canon(Text(l, Headers)) == Canonical(Glue(Squeezed(l), ": ", "\r\n"), true)
  {
    HeadersText(l);
    CanonGlue(l, "\r\n\r\n");
  }

  lemma SqueezedUnique(l: seq<Entry>)
    requires AllSpelled(l) && Unique(l)
    ensures Unique(Squeezed(l))
  {
    SqueezedIs(l);
    var s := Squeezed(l);
    forall i, j | 0 <= i < j < |s| ensures !Same(s[i].key, s[j].key) {
      assert s[i] == SqueezeValue(l[i]) && s[j] == SqueezeValue(l[j]);
    }
  }

  lemma SqueezedReads(l: seq<Entry>)
    requires AllSpelled(l) && Unique(l)
    ensures ReadsAs(Glue(Squeezed(l), ": ", "\r\n"), Squeezed(l), HEADERS)
  {
    SqueezedIs(l);
    SqueezedUnique(l);
    assert Glues(": ", "\r\n", HEADERS);
    GlueReads(Squeezed(l), ": ", "\r\n", HEADERS);
  }

  lemma {:induction false} GlueShrinks(l: seq<Entry>)
    requires AllSpelled(l)
    ensures |Glue(Squeezed(l), ": ", "\r\n")| <= |Glue(l, ": ", "\r\n")|
  {
    if l == [] {
    } else {
      SqueezeFrom(l[0].value, {});
      if |l| == 1 {
        assert Squeezed(l[1..]) == [];
      } else {
        GlueShrinks(l[1..]);
        SqueezedTail(l);
      }
    }
  }

  /** Printed headers are complete, fit the buffer they are canonicalised in, and are read back with
      their values squeezed. */
  lemma HeadersRead(l: seq<Entry>)
    requires l != [] && AllSpelled(l) && Unique(l)
    ensures Canon(Text(l, Headers)).complete && |Canon(Text(l, Headers)).text| <= |Text(l, Headers)|
    ensures ReadsAs(Canon(Text(l, Headers)).text, Squeezed(l), HEADERS)
  {
    HeadersCanon(l);
    HeadersText(l);
    GlueShrinks(l);
    SqueezedReads(l);
  }

  /** No HT, and no two SP in a row. */
  predicate SingleSpaced(v: string) {
    forall i | 0 <= i < |v| :: v[i] != '\t' && (v[i] == ' ' && i + 1 < |v| ==> v[i + 1] != ' ')
  }

  lemma SingleSpacedCons(v: string)
    requires v != ""
    ensures SingleSpaced(v) <==>
            SingleSpaced(v[1..]) && v[0] != '\t' && (v[0] == ' ' && |v| > 1 ==> v[1] != ' ')
  {
    assert forall i | 1 <= i < |v| :: v[i] == v[1..][i - 1];
  }

  lemma {:induction false} SqueezeSame(v: string)
    ensures Squeeze(v) == v <==> SingleSpaced(v)
    decreases |v|
  {
    if v == "" {
    } else {
      var k := Span(v, SPHT);
      SingleSpacedCons(v);
      SqueezeSame(v[1..]);
      assert v == v[..1] + v[1..];
      if k > 1 {
        SqueezeFrom(v[k..], {});
        assert v[1] in SPHT;
      }
    }
  }

  lemma SqueezedSame(l: seq<Entry>)
    requires AllSpelled(l)
    ensures Squeezed(l) == l <==> forall i | 0 <= i < |l| :: SingleSpaced(l[i].value)
  {
    SqueezedIs(l);
    forall i | 0 <= i < |l| ensures Squeezed(l)[i] == l[i] <==> SingleSpaced(l[i].value) {
      SqueezeSame(l[i].value);
    }
  }

  /** What headers can hold unchanged: names distinct but for case and not empty, without ':' and
      white space; values without CR, LF, HT and runs of SP, that do not start with SP or ':'. */
  predicate HeaderLegal(l: seq<Entry>) {
    Unique(l) && AllSpelled(l) && forall i | 0 <= i < |l| :: SingleSpaced(l[i].value)
  }

  /** Headers are read back, through canonicalisation, as the list they were printed from exactly
      if the list is legal. */
  lemma HeadersRoundTrip(l: seq<Entry>)
    requires l != [] && NUL !in Text(l, Headers)
    ensures (Canon(Text(l, Headers)).complete && ReadsAs(Canon(Text(l, Headers)).text, l, HEADERS)) <==> HeaderLegal(l)
  {
    if Canon(Text(l, Headers)).complete && ReadsAs(Canon(Text(l, Headers)).text, l, HEADERS) {
      ReadIsSpelled(Text(l, Headers), l);
    }
    if Unique(l) && AllSpelled(l) {
      HeadersRead(l);
      SqueezedSame(l);
    }
  }

  lemma ReadIsSpelled(text: string, l: seq<Entry>)
    requires ReadsAs(Canon(text).text, l, HEADERS)
    ensures Unique(l) && AllSpelled(l)
  {
    var out := Canon(text).text;
    CanonIsTidy(text);
    assert '\t' !in out by {
      forall i | 0 <= i < |out| ensures out[i] != '\t' {
        assert TidyAt(out, i);
      }
    }
    MergeClean([], out, HEADERS, '\t');
    forall i | 0 <= i < |l| ensures Spelled(l[i]) {
      assert Plain(l[i], HEADERS);
    }
  }

  // ------------------------------------------------------------------ the parsers

  /** params_new_parse_query. It does not return on other texts. */
  method ParseQuery(input: string, len: nat) returns (params: Params)
    requires NUL !in input && WellFormed(input[..Min(len, |input|)], QUERY)
    ensures fresh(params)
    ensures ReadsAs(input[..Min(len, |input|)], params.entries, QUERY)
  {
    var query := input[..Min(len, |input|)];
    var copy := new char[|query| + 1](i requires 0 <= i <= |query| => if i < |query| then query[i] else NUL);
    assert copy[..|query|] == query;
    params := ParseDelim(copy, QUERY, query);
  }

  /** params_new_parse_headers, for headers that do not make headers_canonicalize write past its
      buffer. It does not return on texts that are not well formed after canonicalisation. */
  method ParseHeaders(headers: string) returns (params: Option<Params>)
    requires NUL !in headers && |Canon(headers).text| <= |headers|
    requires Canon(headers).complete ==> WellFormed(Canon(headers).text, HEADERS)
    ensures params.Some? <==> Canon(headers).complete
    ensures params.Some? ==> fresh(params.value) && ReadsAs(Canon(headers).text, params.value.entries, HEADERS)
  {
    var cheaders, success, _ := Canonicalize(headers);
    if !success {
      return None;
    }
    ghost var text := Canon(headers).text;
    CanonNoNul(headers);
    assert cheaders[..|text|] == cheaders[..|text| + 1][..|text|] && cheaders[|text|] == cheaders[..|text| + 1][|text|];
    var list := ParseDelim(cheaders, HEADERS, text);
    params := Some(list);
  }
}
