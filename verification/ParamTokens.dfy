/** The in-place tokenizer of params.c: the loop body as written, the fields it is meant to find,
    and exactly when the loop comes to an end. */
module ParamTokens {
  import opened Common
  import opened ParamList

  /** Length of the longest prefix without these characters. */
  function CSpan(s: string, stop: set<char>): (n: nat)
    ensures n <= |s| && (n < |s| ==> s[n] in stop)
    ensures forall i | 0 <= i < n :: s[i] !in stop
  {
    if s == [] || s[0] in stop then 0 else 1 + CSpan(s[1..], stop)
  }

  /** Length of the longest prefix of these characters only. */
  function Span(s: string, accept: set<char>): (n: nat)
    ensures n <= |s| && (n < |s| ==> s[n] !in accept)
    ensures forall i | 0 <= i < n :: s[i] in accept
  {
    if s == [] || s[0] !in accept then 0 else 1 + Span(s[1..], accept)
  }

  /** The C string at index i. */
  function CStr(buf: string, i: nat): string
    requires i <= |buf|
  {
    buf[i..i + CSpan(buf[i..], {NUL})]
  }

  function Clear(buf: string, i: nat, n: nat): string
    requires i + n <= |buf|
  {
    buf[..i] + seq(n, j => NUL) + buf[i + n..]
  }

  datatype Delims = Delims(val: set<char>, end: set<char>) {
    predicate Ok() {
      NUL !in val && NUL !in end && val !! end
    }
  }

  /** What one turn of the loop does to the buffer and the key pointer, whether it is the last
      one, and where the value string is, if the turn passes key and value to params_append. */
  datatype Turn = Turn(buf: string, key: nat, done: bool, val: Option<nat>)

  /** The two strings passed on by a turn that started with its key pointer at `key`. */
  function Found(t: Turn, key: nat): Entry
    requires t.val.Some? && key <= |t.buf| && t.val.value <= |t.buf|
  {
    Entry(CStr(t.buf, key), CStr(t.buf, t.val.value))
  }

  /** One turn of the do-while loop of params_new_parse_delim, branch by branch. */
  function TurnAt(buf: string, key: nat, d: Delims): (t: Turn)
    requires key <= |buf| && d.Ok()
    ensures |t.buf| == |buf| && t.key <= |buf| && (t.val.Some? ==> t.val.value <= |buf|)
  {
    Branch(buf, key, CSpan(buf[key..], d.val + {NUL}), CSpan(buf[key..], d.end + {NUL}), d)
  }

  /** The branches of a turn, given its first two spans. */
  function Branch(buf: string, key: nat, vs: nat, es: nat, d: Delims): (t: Turn)
    requires key + vs <= |buf| && key + es <= |buf| && d.Ok()
    ensures |t.buf| == |buf| && t.key <= |buf| && (t.val.Some? ==> t.val.value <= |buf|)
  {
    var v, e := key + vs, key + es;
    if es == 0 then
      Turn(if vs > 0 && v < |buf| then buf[v := NUL] else buf, key, true, None)
    else if vs > 0 && v < e then
      var n := Span(buf[v..], d.val);
      var buf1 := Clear(buf, v, n);
      var m := Span(buf1[e..], d.end);
      var buf2 := Clear(buf1, e, m);
      Turn(buf2, e + m, false, Some(v + n))
    else
      Turn(Clear(buf, e, Span(buf[e..], d.end)), key, false, None)
  }

  /** buf[key..] is text, a terminating NUL and anything. */
  predicate Reading(buf: string, key: nat, text: string) {
    && NUL !in text
    && key + |text| < |buf|
    && buf[key..key + |text|] == text
    && buf[key + |text|] == NUL
  }

  // ------------------------------------------------------------------ fields

  function AfterField(text: string, d: Delims): string {
    var e := CSpan(text, d.end);
    text[e + Span(text[e..], d.end)..]
  }

  /** Every field up to the end of the text, or to an empty one, has a key that is not empty and
      is followed by a value delimiter before the field ends. */
  predicate WellFormed(text: string, d: Delims)
    decreases |text|
  {
    || text == []
    || text[0] in d.end
    || (text[0] !in d.val && CSpan(text, d.val) < CSpan(text, d.end) && WellFormed(AfterField(text, d), d))
  }

  function FirstField(text: string, d: Delims): Entry
    requires CSpan(text, d.val) < CSpan(text, d.end) && d.Ok()
  {
    var v, e := CSpan(text, d.val), CSpan(text, d.end);
    var n := Span(text[v..], d.val);
    ValueStart(text, d);
    Entry(text[..v], text[v + n..e])
  }

  /** The delimiters between key and value end before the field does. */
  lemma ValueStart(text: string, d: Delims)
    requires CSpan(text, d.val) < CSpan(text, d.end) && d.Ok()
    ensures CSpan(text, d.val) + Span(text[CSpan(text, d.val)..], d.val) <= CSpan(text, d.end)
  {
  }

  /** The fields of a text: split at runs of end delimiters, then at the first run of value
      delimiters. */
  function Fields(text: string, d: Delims): seq<Entry>
    requires WellFormed(text, d) && d.Ok()
    decreases |text|
  {
    if text == [] || text[0] in d.end then []
    else [FirstField(text, d)] + Fields(AfterField(text, d), d)
  }

  // ------------------------------------------------------------------ one turn

  lemma {:induction false} CSpanCut(text: string, tail: string, stop: set<char>)
    requires NUL !in text && tail != [] && tail[0] == NUL
    ensures CSpan(text + tail, stop + {NUL}) == CSpan(text, stop)
    decreases |text|
  {
    if text == [] {
      assert text + tail == tail;
    } else {
      assert (text + tail)[1..] == text[1..] + tail;
      CSpanCut(text[1..], tail, stop);
    }
  }

  lemma {:induction false} SpanCut(text: string, tail: string, accept: set<char>)
    requires NUL !in accept && tail != [] && tail[0] == NUL
    ensures Span(text + tail, accept) == Span(text, accept)
    decreases |text|
  {
    if text == [] {
      assert text + tail == tail;
    } else {
      assert (text + tail)[1..] == text[1..] + tail;
      SpanCut(text[1..], tail, accept);
    }
  }

  lemma CStrIs(buf: string, i: nat, w: string)
    requires NUL !in w && i + |w| < |buf| && buf[i..i + |w|] == w && buf[i + |w|] == NUL
    ensures CStr(buf, i) == w
  {
    var tail := buf[i + |w|..];
    assert buf[i..] == w + tail;
    CSpanCut(w, tail, {});
    assert {} + {NUL} == {NUL};
    NoStops(w);
  }

  lemma {:induction false} NoStops(w: string)
    ensures CSpan(w, {}) == |w|
  {
    if w == [] {
    } else {
      NoStops(w[1..]);
    }
  }

  /** The first two spans of a turn. */
  lemma TurnSpans(buf: string, key: nat, text: string, d: Delims)
    requires Reading(buf, key, text) && d.Ok()
    ensures TurnAt(buf, key, d) == Branch(buf, key, CSpan(text, d.val), CSpan(text, d.end), d)
  {
    var tail := buf[key + |text|..];
    assert buf[key..] == text + tail;
    CSpanCut(text, tail, d.val);
    CSpanCut(text, tail, d.end);
  }

  /** A span inside the text. */
  lemma SpanInside(buf: string, key: nat, text: string, i: nat, accept: set<char>)
    requires Reading(buf, key, text) && i <= |text| && NUL !in accept
    ensures Span(buf[key + i..], accept) == Span(text[i..], accept)
  {
    var tail := buf[key + |text|..];
    assert buf[key..] == text + tail;
    assert buf[key + i..] == text[i..] + tail;
    SpanCut(text[i..], tail, accept);
  }

  lemma ClearAt(buf: string, i: nat, n: nat)
    requires i + n <= |buf|
    ensures |Clear(buf, i, n)| == |buf|
    ensures forall j | 0 <= j < |buf| :: Clear(buf, i, n)[j] == if i <= j < i + n then NUL else buf[j]
  {
  }

  /** A turn's buffer: NUL where the delimiter runs start, and what lies between them as it was. */
  predicate Cut(buf: string, buf2: string, key: nat, v: nat, n: nat, e: nat, m: nat) {
    && key <= v && 0 < n && v + n <= e && e + m < |buf| == |buf2|
    && buf2[key..v] == buf[key..v] && buf2[v] == NUL
    && buf2[v + n..e] == buf[v + n..e] && buf2[e] == (if m > 0 then NUL else buf[e])
    && buf2[e + m..] == buf[e + m..]
  }

  lemma CutTwice(buf: string, key: nat, v: nat, n: nat, e: nat, m: nat)
    requires key <= v && 0 < n && v + n <= e && e + m < |buf|
    ensures Cut(buf, ClearedTwice(buf, v, n, e, m), key, v, n, e, m)
  {
    ClearAt(buf, v, n);
    ClearAt(Clear(buf, v, n), e, m);
  }

  lemma ReadingAt(buf: string, key: nat, text: string)
    requires Reading(buf, key, text)
    ensures forall j | key <= j < key + |text| :: buf[j] == text[j - key]
  {
    assert forall j | 0 <= j < |text| :: buf[key..key + |text|][j] == text[j];
  }

  lemma SubReads(buf: string, key: nat, text: string, i: nat, j: nat)
    requires Reading(buf, key, text) && i <= j <= |text|
    ensures buf[key + i..key + j] == text[i..j] && NUL !in text[i..j]
  {
    ReadingAt(buf, key, text);
  }

  predicate GoodField(text: string, d: Delims) {
    text != [] && text[0] !in d.end && text[0] !in d.val && CSpan(text, d.val) < CSpan(text, d.end)
  }

  predicate NoField(text: string, d: Delims) {
    text == [] || text[0] in d.end
  }

  lemma ClearTail(buf: string, v: nat, n: nat, e: nat)
    requires v + n <= e <= |buf|
    ensures Clear(buf, v, n)[e..] == buf[e..] && |Clear(buf, v, n)| == |buf|
  {
  }

  function ClearedTwice(buf: string, v: nat, n: nat, e: nat, m: nat): string
    requires v + n <= e && e + m <= |buf|
  {
    ClearTail(buf, v, n, e);
    Clear(Clear(buf, v, n), e, m)
  }

  /** What is left of a field that has a value: the buffer after its two runs have been cleared. */
  function WithValue(buf: string, v: nat, e: nat, d: Delims): (r: (string, nat, nat))
    requires v <= |buf| && e <= |buf|
    ensures v + r.1 <= |buf| && e + r.2 <= |buf| == |r.0|
  {
    var n := Span(buf[v..], d.val);
    var mid := Clear(buf, v, n);
    var m := Span(mid[e..], d.end);
    (Clear(mid, e, m), n, m)
  }

  lemma BranchValue(buf: string, key: nat, vs: nat, es: nat, d: Delims, out: string, n: nat, m: nat)
    requires key + vs <= |buf| && key + es <= |buf| && d.Ok() && 0 < vs < es
    requires (out, n, m) == WithValue(buf, key + vs, key + es, d)
    ensures Branch(buf, key, vs, es, d) == Turn(out, key + es + m, false, Some(key + vs + n))
  {
  }

  lemma BranchGood(buf: string, key: nat, v: nat, n: nat, e: nat, m: nat, d: Delims)
    requires d.Ok() && v > 0 && v + n <= e && v < e && key + e + m <= |buf|
    requires n == Span(buf[key + v..], d.val) && m == Span(buf[key + e..], d.end)
    ensures Branch(buf, key, v, e, d)
         == Turn(ClearedTwice(buf, key + v, n, key + e, m), key + e + m, false, Some(key + v + n))
  {
    ClearTail(buf, key + v, n, key + e);
    BranchValue(buf, key, v, e, d, ClearedTwice(buf, key + v, n, key + e, m), n, m);
  }

  lemma FieldSpans(buf: string, key: nat, text: string, d: Delims) returns (v: nat, n: nat, e: nat, m: nat)
    requires Reading(buf, key, text) && d.Ok() && GoodField(text, d)
    ensures v == CSpan(text, d.val) && e == CSpan(text, d.end)
    ensures n == Span(text[v..], d.val) == Span(buf[key + v..], d.val)
    ensures m == Span(text[e..], d.end) == Span(buf[key + e..], d.end)
    ensures 0 < v && 1 <= n && v + n <= e && e + m <= |text| && (m >= 1 || e == |text|)
  {
    v, e := CSpan(text, d.val), CSpan(text, d.end);
    n, m := Span(text[v..], d.val), Span(text[e..], d.end);
    ValueStart(text, d);
    SpanInside(buf, key, text, v, d.val);
    SpanInside(buf, key, text, e, d.end);
  }

  lemma GoodTurnIs(buf: string, key: nat, text: string, d: Delims, v: nat, n: nat, e: nat, m: nat)
    requires Reading(buf, key, text) && d.Ok()
    requires v == CSpan(text, d.val) && e == CSpan(text, d.end)
    requires n == Span(buf[key + v..], d.val) && m == Span(buf[key + e..], d.end)
    requires 0 < v && 1 <= n && v + n <= e && e + m <= |text|
    ensures TurnAt(buf, key, d)
         == Turn(ClearedTwice(buf, key + v, n, key + e, m), key + e + m, false, Some(key + v + n))
  {
    TurnSpans(buf, key, text, d);
    BranchGood(buf, key, v, n, e, m, d);
  }

  /** The part of the text from i to j, as a C string of a buffer that keeps it and ends it there. */
  lemma PartIsString(buf: string, key: nat, text: string, buf2: string, i: nat, j: nat)
    requires Reading(buf, key, text) && i <= j <= |text| && |buf2| == |buf|
    requires buf2[key + i..key + j] == buf[key + i..key + j] && buf2[key + j] == NUL
    ensures CStr(buf2, key + i) == text[i..j]
  {
    SubReads(buf, key, text, i, j);
    CStrIs(buf2, key + i, text[i..j]);
  }

  lemma FoundIs(t: Turn, key: nat, p: nat, k: string, v: string)
    requires t.val == Some(p) && key <= |t.buf| && p <= |t.buf| && CStr(t.buf, key) == k && CStr(t.buf, p) == v
    ensures Found(t, key) == Entry(k, v)
  {
  }

  lemma KeyString(buf: string, key: nat, text: string, buf2: string, v: nat)
    requires Reading(buf, key, text) && v <= |text| && |buf2| == |buf|
    requires buf2[key..key + v] == buf[key..key + v] && buf2[key + v] == NUL
    ensures CStr(buf2, key) == text[..v]
  {
    PartIsString(buf, key, text, buf2, 0, v);
  }

  lemma ValueString(buf: string, key: nat, text: string, buf2: string, w: nat, e: nat, m: nat)
    requires Reading(buf, key, text) && w <= e <= |text| && |buf2| == |buf| && (m >= 1 || e == |text|)
    requires buf2[key + w..key + e] == buf[key + w..key + e] && buf2[key + e] == (if m > 0 then NUL else buf[key + e])
    ensures CStr(buf2, key + w) == text[w..e]
  {
    PartIsString(buf, key, text, buf2, w, e);
  }

  /** The two strings a turn passes to params_append. */
  lemma CutStrings(buf: string, key: nat, text: string, t: Turn, v: nat, n: nat, e: nat, m: nat)
    requires Reading(buf, key, text) && Cut(buf, t.buf, key, key + v, n, key + e, m)
    requires e <= |text| && (m >= 1 || e == |text|) && t.val == Some(key + v + n)
    ensures Found(t, key) == Entry(text[..v], text[v + n..e])
  {
    var w := v + n;
    KeyString(buf, key, text, t.buf, v);
    assert t.buf[key + w..key + e] == buf[key + w..key + e];
    ValueString(buf, key, text, t.buf, w, e, m);
    FoundIs(t, key, key + v + n, text[..v], text[v + n..e]);
  }

  /** What is left to read after a turn. */
  lemma CutRest(buf: string, key: nat, text: string, t: Turn, v: nat, n: nat, e: nat, m: nat)
    requires Reading(buf, key, text) && Cut(buf, t.buf, key, key + v, n, key + e, m)
    requires e + m <= |text| && t.key == key + e + m
    ensures Reading(t.buf, t.key, text[e + m..])
  {
    SubReads(buf, key, text, e + m, |text|);
    var k := |text| - (e + m);
    assert t.buf[t.key..][..k] == buf[t.key..][..k];
    assert t.buf[t.key..][k] == buf[t.key..][k];
  }

  lemma CutReads(buf: string, key: nat, text: string, t: Turn, v: nat, n: nat, e: nat, m: nat)
    requires Reading(buf, key, text) && Cut(buf, t.buf, key, key + v, n, key + e, m)
    requires e + m <= |text| && (m >= 1 || e == |text|)
    requires t.val == Some(key + v + n) && t.key == key + e + m
    ensures Found(t, key) == Entry(text[..v], text[v + n..e]) && Reading(t.buf, t.key, text[e + m..])
  {
    CutStrings(buf, key, text, t, v, n, e, m);
    CutRest(buf, key, text, t, v, n, e, m);
  }

  lemma FoundTurn(buf: string, key: nat, v: nat, n: nat, e: nat, m: nat) returns (t: Turn)
    requires n >= 1 && v + n <= e && key + e + m < |buf|
    ensures t == Turn(ClearedTwice(buf, key + v, n, key + e, m), key + e + m, false, Some(key + v + n))
    ensures Cut(buf, t.buf, key, key + v, n, key + e, m)
  {
    CutTwice(buf, key, key + v, n, key + e, m);
    t := Turn(ClearedTwice(buf, key + v, n, key + e, m), key + e + m, false, Some(key + v + n));
  }

  /** What a turn that has found a field leaves. */
  lemma ClearedReads(buf: string, key: nat, text: string, v: nat, n: nat, e: nat, m: nat) returns (t: Turn)
    requires Reading(buf, key, text)
    requires n >= 1 && v + n <= e && e + m <= |text| && (m >= 1 || e == |text|)
    ensures t == Turn(ClearedTwice(buf, key + v, n, key + e, m), key + e + m, false, Some(key + v + n))
    ensures |t.buf| == |buf|
    ensures Found(t, key) == Entry(text[..v], text[v + n..e])
    ensures Reading(t.buf, t.key, text[e + m..])
  {
    t := FoundTurn(buf, key, v, n, e, m);
    CutReads(buf, key, text, t, v, n, e, m);
  }

  lemma FirstFieldIs(text: string, d: Delims, v: nat, n: nat, e: nat)
    requires d.Ok() && v == CSpan(text, d.val) && e == CSpan(text, d.end) && v < e && n == Span(text[v..], d.val)
    ensures v + n <= e && FirstField(text, d) == Entry(text[..v], text[v + n..e])
  {
    ValueStart(text, d);
  }

  lemma AfterFieldIs(text: string, d: Delims, e: nat, m: nat)
    requires e == CSpan(text, d.end) && m == Span(text[e..], d.end)
    ensures e + m <= |text| && AfterField(text, d) == text[e + m..]
  {
  }

  lemma FieldIs(text: string, d: Delims, v: nat, n: nat, e: nat, m: nat)
    requires d.Ok() && v == CSpan(text, d.val) && e == CSpan(text, d.end) && v < e
    requires n == Span(text[v..], d.val) && m == Span(text[e..], d.end)
    ensures v + n <= e && e + m <= |text|
    ensures FirstField(text, d) == Entry(text[..v], text[v + n..e]) && AfterField(text, d) == text[e + m..]
  {
    FirstFieldIs(text, d, v, n, e);
    AfterFieldIs(text, d, e, m);
  }

  /** At a well-formed field one turn finds that field and moves on to the next. */
  lemma GoodTurn(buf: string, key: nat, text: string, d: Delims) returns (t: Turn)
    requires Reading(buf, key, text) && d.Ok() && GoodField(text, d)
    ensures t == TurnAt(buf, key, d)
    ensures t.val.Some? && t.val.value <= |t.buf| == |buf| && key < t.key && !t.done
    ensures Found(t, key) == FirstField(text, d)
    ensures Reading(t.buf, t.key, AfterField(text, d))
  {
    var v, n, e, m := FieldSpans(buf, key, text, d);
    t := ClearedReads(buf, key, text, v, n, e, m);
    GoodTurnIs(buf, key, text, d, v, n, e, m);
    FieldIs(text, d, v, n, e, m);
  }

  /** At the end of the text, or at an empty field, one turn ends the loop. */
  lemma LastTurn(buf: string, key: nat, text: string, d: Delims)
    requires Reading(buf, key, text) && d.Ok() && NoField(text, d)
    ensures TurnAt(buf, key, d).done && TurnAt(buf, key, d).val == None && |TurnAt(buf, key, d).buf| == |buf|
  {
    TurnSpans(buf, key, text, d);
  }

  lemma BranchBad(buf: string, key: nat, v: nat, e: nat, m: nat, d: Delims)
    requires d.Ok() && 0 < e && (v == 0 || e <= v) && key + v <= |buf| && key + e + m <= |buf|
    requires m == Span(buf[key + e..], d.end)
    ensures Branch(buf, key, v, e, d) == Turn(Clear(buf, key + e, m), key, false, None)
  {
  }

  lemma ShortReads(buf: string, key: nat, text: string, e: nat, m: nat)
    requires Reading(buf, key, text) && e + m <= |text| && (m >= 1 || e == |text|)
    ensures Reading(Clear(buf, key + e, m), key, text[..e])
  {
    ReadingAt(buf, key, text);
    ClearAt(buf, key + e, m);
    assert Clear(buf, key + e, m)[key..key + e] == text[..e];
  }

  /** At any other field the key pointer does not move, and the next turn changes nothing. */
  lemma BadTurn(buf: string, key: nat, text: string, d: Delims)
    requires Reading(buf, key, text) && d.Ok() && !GoodField(text, d) && !NoField(text, d)
    ensures var t := TurnAt(buf, key, d);
            t == Turn(t.buf, key, false, None) && key <= |t.buf| && TurnAt(t.buf, key, d) == t
  {
    var v, e := CSpan(text, d.val), CSpan(text, d.end);
    var m := Span(text[e..], d.end);
    SpanInside(buf, key, text, e, d.end);
    TurnSpans(buf, key, text, d);
    BranchBad(buf, key, v, e, m, d);
    ShortReads(buf, key, text, e, m);
    ShortSpans(text, d);
    StuckAt(Clear(buf, key + e, m), key, text[..e], d);
  }

  lemma {:induction false} CSpanPrefix(text: string, e: nat, stop: set<char>)
    requires e <= |text|
    ensures CSpan(text[..e], stop) == if CSpan(text, stop) < e then CSpan(text, stop) else e
    decreases |text|
  {
    if e == 0 || text[0] in stop {
    } else {
      assert text[..e][1..] == text[1..][..e - 1];
      CSpanPrefix(text[1..], e - 1, stop);
    }
  }

  lemma ShortSpans(text: string, d: Delims)
    requires !GoodField(text, d) && !NoField(text, d)
    ensures var short := text[..CSpan(text, d.end)];
            short != [] && CSpan(short, d.end) == |short| && (short[0] in d.val || CSpan(short, d.val) == |short|)
  {
    var e := CSpan(text, d.end);
    CSpanPrefix(text, e, d.end);
    CSpanPrefix(text, e, d.val);
  }

  /** A text that is one field without a value delimiter, or starting with one, stays as it is. */
  lemma StuckAt(buf: string, key: nat, short: string, d: Delims)
    requires Reading(buf, key, short) && d.Ok() && short != []
    requires CSpan(short, d.end) == |short| && (short[0] in d.val || CSpan(short, d.val) == |short|)
    ensures TurnAt(buf, key, d) == Turn(buf, key, false, None)
  {
    TurnSpans(buf, key, short, d);
    SpanInside(buf, key, short, |short|, d.end);
    BranchBad(buf, key, CSpan(short, d.val), |short|, 0, d);
    ClearNothing(buf, key + |short|);
  }

  lemma ClearNothing(buf: string, i: nat)
    requires i <= |buf|
    ensures Clear(buf, i, 0) == buf
  {
  }

  // ------------------------------------------------------------------ the whole loop

  /** The tokenizer between two turns. */
  datatype Tok = Tok(buf: string, key: nat, list: seq<Entry>, done: bool)

  function Step(t: Tok, d: Delims): Tok
    requires d.Ok()
  {
    if t.done || t.key > |t.buf| then t
    else
      var r := TurnAt(t.buf, t.key, d);
      var list := if r.val.Some? then Append(t.list, Found(r, t.key).key, Found(r, t.key).value) else t.list;
      Tok(r.buf, r.key, list, r.done)
  }

  /** The loop's turns, as a function of its state. */
  function Loop(d: Delims): Tok -> Tok
    requires d.Ok()
  {
    t => Step(t, d)
  }

  function Iterate(step: Tok -> Tok, t: Tok, n: nat): Tok
    decreases n
  {
    if n == 0 then t else Iterate(step, step(t), n - 1)
  }

  lemma GoodStep(t: Tok, text: string, d: Delims)
    requires Reading(t.buf, t.key, text) && d.Ok() && GoodField(text, d) && !t.done
    ensures var u := Step(t, d);
            && !u.done && Reading(u.buf, u.key, AfterField(text, d)) && |AfterField(text, d)| < |text|
            && u.list == Append(t.list, FirstField(text, d).key, FirstField(text, d).value)
  {
    var r := GoodTurn(t.buf, t.key, text, d);
  }

  lemma BadStep(t: Tok, text: string, d: Delims)
    requires Reading(t.buf, t.key, text) && d.Ok() && !GoodField(text, d) && !NoField(text, d) && !t.done
    ensures var u := Step(t, d);
            !u.done && Step(u, d) == u
  {
    BadTurn(t.buf, t.key, text, d);
  }

  /** What a turn does, by the kind of field it is at. */
  ghost predicate TurnsAt(step: Tok -> Tok, d: Delims, t: Tok, text: string)
    requires d.Ok()
  {
    Reading(t.buf, t.key, text) && !t.done ==>
      var u := step(t);
      if NoField(text, d) then u.done && u.list == t.list
      else if GoodField(text, d) then
        && !u.done && Reading(u.buf, u.key, AfterField(text, d)) && |AfterField(text, d)| < |text|
        && u.list == Append(t.list, FirstField(text, d).key, FirstField(text, d).value)
      else !u.done && step(u) == u
  }

  ghost predicate Turns(step: Tok -> Tok, d: Delims)
    requires d.Ok()
  {
    forall t, text :: TurnsAt(step, d, t, text)
  }

  lemma LoopTurns(d: Delims)
    requires d.Ok()
    ensures Turns(Loop(d), d)
  {
    forall t, text ensures TurnsAt(Loop(d), d, t, text) {
      if Reading(t.buf, t.key, text) && !t.done {
        if NoField(text, d) {
          LastTurn(t.buf, t.key, text, d);
        } else if GoodField(text, d) {
          GoodStep(t, text, d);
        } else {
          BadStep(t, text, d);
        }
      }
    }
  }

  lemma {:induction false} Fixed(step: Tok -> Tok, t: Tok, n: nat)
    requires step(t) == t
    ensures Iterate(step, t, n) == t
  {
    if n == 0 {
    } else {
      Fixed(step, t, n - 1);
    }
  }

  /** Appending the fields of a text appends its first field, then those of the rest. */
  lemma MergeFields(list: seq<Entry>, text: string, d: Delims)
    requires d.Ok() && WellFormed(text, d) && GoodField(text, d)
    ensures WellFormed(AfterField(text, d), d)
    ensures Merge(list, Fields(text, d))
         == Merge(Append(list, FirstField(text, d).key, FirstField(text, d).value), Fields(AfterField(text, d), d))
  {
    assert Fields(text, d)[1..] == Fields(AfterField(text, d), d);
  }

  /** On a well-formed text the loop ends, with the fields of the text appended in order. */
  lemma {:induction false} Ends(step: Tok -> Tok, t: Tok, text: string, d: Delims) returns (n: nat)
    requires d.Ok() && Turns(step, d)
    requires Reading(t.buf, t.key, text) && !t.done && WellFormed(text, d)
    ensures Iterate(step, t, n).done && Iterate(step, t, n).list == Merge(t.list, Fields(text, d))
    decreases |text|
  {
    assert TurnsAt(step, d, t, text);
    if NoField(text, d) {
      n := 1;
      assert Iterate(step, t, 1) == Iterate(step, step(t), 0);
    } else {
      MergeFields(t.list, text, d);
      var k := Ends(step, step(t), AfterField(text, d), d);
      n := k + 1;
    }
  }

  /** At a text that is not well formed, one turn leaves such a text, or gets stuck. */
  lemma IllFormedTurn(step: Tok -> Tok, t: Tok, text: string, d: Delims) returns (rest: string)
    requires d.Ok() && Turns(step, d)
    requires Reading(t.buf, t.key, text) && !t.done && !WellFormed(text, d)
    ensures !step(t).done
    ensures step(step(t)) == step(t) || (Reading(step(t).buf, step(t).key, rest) && !WellFormed(rest, d))
  {
    assert TurnsAt(step, d, t, text);
    rest := AfterField(text, d);
  }

  /** On any other text it never ends. */
  lemma {:induction false} NeverEnds(step: Tok -> Tok, t: Tok, text: string, d: Delims, n: nat)
    requires d.Ok() && Turns(step, d)
    requires Reading(t.buf, t.key, text) && !t.done && !WellFormed(text, d)
    ensures !Iterate(step, t, n).done
    decreases n
  {
    if n == 0 {
    } else {
      var rest := IllFormedTurn(step, t, text, d);
      if step(step(t)) == step(t) {
        Fixed(step, step(t), n - 1);
      } else {
        NeverEnds(step, step(t), rest, d, n - 1);
      }
    }
  }

  ghost predicate Halts(text: string, d: Delims)
    requires d.Ok()
  {
    exists n: nat :: Iterate(Loop(d), Tok(text + [NUL], 0, [], false), n).done
  }

  /** The loop of params_new_parse_delim comes to an end exactly on the well-formed texts. */
  lemma HaltsExactly(text: string, d: Delims)
    requires d.Ok() && NUL !in text
    ensures Halts(text, d) <==> WellFormed(text, d)
  {
    var t := Tok(text + [NUL], 0, [], false);
    assert Reading(t.buf, 0, text);
    LoopTurns(d);
    if WellFormed(text, d) {
      var n := Ends(Loop(d), t, text, d);
    } else {
      forall n: nat ensures !Iterate(Loop(d), t, n).done {
        NeverEnds(Loop(d), t, text, d, n);
      }
    }
  }

  method Memset(buf: array<char>, i: nat, n: nat)
    requires i + n <= buf.Length
    modifies buf
    ensures buf[..] == Clear(old(buf[..]), i, n)
  {
    ghost var was := buf[..];
    var j := 0;
    while j < n
      invariant 0 <= j <= n
      invariant forall k | 0 <= k < buf.Length :: buf[k] == if i <= k < i + j then NUL else was[k]
    {
      buf[i + j] := NUL;
      j := j + 1;
    }
    ClearAt(was, i, n);
    assert buf[..] == Clear(was, i, n);
  }

  /** Clears a run of these characters. */
  method ClearRun(buf: array<char>, i: nat, accept: set<char>) returns (n: nat)
    requires i <= buf.Length
    modifies buf
    ensures n == Span(old(buf[..])[i..], accept) && buf[..] == Clear(old(buf[..]), i, n)
  {
    assert buf[i..] == buf[..][i..];
    n := Span(buf[i..], accept);
    Memset(buf, i, n);
  }

  /** Ends the value and the key of a field. */
  method ClearBoth(buf: array<char>, v: nat, e: nat, d: Delims) returns (n: nat, m: nat)
    requires v <= buf.Length && e <= buf.Length
    modifies buf
    ensures (buf[..], n, m) == WithValue(old(buf[..]), v, e, d)
  {
    n := ClearRun(buf, v, d.val);
    m := ClearRun(buf, e, d.end);
  }

  /** The branches of the loop body that have found the end of a field: with a value, and without. */
  method EndValue(buf: array<char>, key: nat, vs: nat, es: nat, d: Delims) returns (key': nat, val: nat)
    requires key + vs <= buf.Length && key + es <= buf.Length && 0 < vs < es && d.Ok()
    modifies buf
    ensures Branch(old(buf[..]), key, vs, es, d) == Turn(buf[..], key', false, Some(val))
  {
    ghost var was := buf[..];
    var n, m := ClearBoth(buf, key + vs, key + es, d);
    key', val := key + es + m, key + vs + n;
    BranchValue(was, key, vs, es, d, buf[..], n, m);
  }

  method EndKey(buf: array<char>, key: nat, vs: nat, es: nat, d: Delims)
    requires key + vs <= buf.Length && key + es <= buf.Length && 0 < es && (vs == 0 || es <= vs) && d.Ok()
    modifies buf
    ensures Branch(old(buf[..]), key, vs, es, d) == Turn(buf[..], key, false, None)
  {
    ghost var was := buf[..];
    var m := ClearRun(buf, key + es, d.end);
    BranchBad(was, key, vs, es, m, d);
  }

  /** The body of the do-while loop, in place. */
  method TurnInPlace(buf: array<char>, key: nat, d: Delims) returns (key': nat, done: bool, val: Option<nat>)
    requires key <= buf.Length && d.Ok()
    modifies buf
    ensures Turn(buf[..], key', done, val) == TurnAt(old(buf[..]), key, d)
  {
    key', val := key, None;
    assert buf[key..] == buf[..][key..];
    var vs := CSpan(buf[key..], d.val + {NUL});
    var es := CSpan(buf[key..], d.end + {NUL});
    done := es == 0;
    if !done {
      if 0 < vs < es {
        var v;
        key', v := EndValue(buf, key, vs, es, d);
        val := Some(v);
      } else {
        EndKey(buf, key, vs, es, d);
      }
    } else if vs > 0 && key + vs < buf.Length {
      buf[key + vs] := NUL;
    }
  }

  /** params_new_parse_delim. It must not be called on other texts: there it does not return. */
  method ParseDelim(buf: array<char>, d: Delims, ghost text: string) returns (params: Params)
    requires d.Ok() && Reading(buf[..], 0, text) && WellFormed(text, d)
    modifies buf
    ensures fresh(params) && params.entries == Merge([], Fields(text, d))
  {
    params := new Params();
    var key: nat := 0;
    var done := false;
    ghost var rest := text;
    while !done
      invariant key <= buf.Length && fresh(params)
      invariant if done then params.entries == Merge([], Fields(text, d))
                else Reading(buf[..], key, rest) && WellFormed(rest, d)
                     && Merge(params.entries, Fields(rest, d)) == Merge([], Fields(text, d))
      decreases !done, |rest|
    {
      ghost var t := Tok(buf[..], key, params.entries, false);
      if NoField(rest, d) {
        LastTurn(buf[..], key, rest, d);
      } else {
        GoodStep(t, rest, d);
        MergeFields(t.list, rest, d);
        rest := AfterField(rest, d);
      }
      var start := key;
      var val;
      key, done, val := TurnInPlace(buf, key, d);
      if val.Some? {
        params.AppendValue(CStr(buf[..], start), CStr(buf[..], val.value));
      }
    }
  }
}
