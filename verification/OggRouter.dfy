/** The page callback of ogg-stdin.c: header pages of the current link go to a file, all other pages
    to the ring buffer. */
module OggRouter {
  import opened Common

  type Bytes = seq<Byte>

  /** What the callback looks at in a page: its BOS flag, its serial number, the number of packets
      that end on it, and its bytes. */
  datatype Page = Page(bos: bool, serial: int, packets: nat, header: Bytes, body: Bytes)

  /** How many header packets the stream with each serial number has. */
  type Needs = int -> nat

  datatype Tracker = Tracker(serial: int, count: nat)

  /** The fields of the callback's state, with the header file and its write position, and the
      arguments of all calls of ringbuffer_write. */
  datatype Router = Router(
    inHeaders: nat, headersLen: nat, file: Bytes, pos: nat, trackers: seq<Tracker>, sent: seq<Bytes>)

  const START := Router(0, 0, [], 0, [], [])

  function FindTracker(l: seq<Tracker>, serial: int): (i: nat)
    ensures i <= |l| && (i < |l| ==> l[i].serial == serial)
    ensures forall j | 0 <= j < i :: l[j].serial != serial
  {
    if l == [] || l[0].serial == serial then 0 else 1 + FindTracker(l[1..], serial)
  }

  function Counted(l: seq<Tracker>, serial: int): nat {
    var i := FindTracker(l, serial);
    if i < |l| then l[i].count else 0
  }

  /** The tracker list after these packets of a stream. */
  function CountOn(l: seq<Tracker>, serial: int, packets: nat): seq<Tracker> {
    var i := FindTracker(l, serial);
    if i < |l| then l[i := Tracker(serial, l[i].count + packets)] else [Tracker(serial, packets)] + l
  }

  /** write(2) at a file position. */
  function WriteAt(file: Bytes, pos: nat, data: Bytes): Bytes
    requires pos <= |file|
  {
    file[..pos] + data + if pos + |data| <= |file| then file[pos + |data|..] else []
  }

  predicate Sound(r: Router) {
    r.pos == r.headersLen <= |r.file|
  }

  /** oggstdin_read_page. */
  function Step(r: Router, p: Page, needs: Needs): (u: Router)
    requires Sound(r)
    ensures Sound(u)
  {
    var r1 := if !p.bos then r
              else if r.inHeaders == 0 then r.(headersLen := 0, pos := 0, inHeaders := 1)
              else r.(inHeaders := r.inHeaders + 1);
    if r1.inHeaders > 0 then HeaderPage(r1, p, needs) else r1.(sent := r1.sent + [p.header, p.body])
  }

  function HeaderPage(r: Router, p: Page, needs: Needs): (u: Router)
    requires Sound(r) && r.inHeaders > 0
    ensures Sound(u)
  {
    var trackers := CountOn(r.trackers, p.serial, p.packets);
    var bytes := p.header + p.body;
    Router(
      if Counted(trackers, p.serial) >= needs(p.serial) then r.inHeaders - 1 else r.inHeaders,
      r.headersLen + |bytes|, WriteAt(r.file, r.pos, bytes), r.pos + |bytes|, trackers, r.sent)
  }

  function Run(pages: seq<Page>, needs: Needs): (r: Router)
    ensures Sound(r)
  {
    if pages == [] then START else Step(Run(pages[..|pages| - 1], needs), pages[|pages| - 1], needs)
  }

  // ------------------------------------------------------------------ what a page sequence says

  /** Packets of a stream that the pages have completed. */
  function Packets(pages: seq<Page>, serial: int): nat {
    if pages == [] then 0
    else Packets(Past(pages), serial) + if Last(pages).serial == serial then Last(pages).packets else 0
  }

  function Past(pages: seq<Page>): seq<Page>
    requires pages != []
  {
    pages[..|pages| - 1]
  }

  function Last(pages: seq<Page>): Page
    requires pages != []
  {
    pages[|pages| - 1]
  }

  function Begun(pages: seq<Page>): set<int> {
    if pages == [] then {} else Begun(Past(pages)) + if Last(pages).bos then {Last(pages).serial} else {}
  }

  /** The streams that have begun and have not had all their header packets. */
  function Incomplete(pages: seq<Page>, needs: Needs): set<int> {
    set s | s in Begun(pages) && Packets(pages, s) < needs(s)
  }

  predicate AfterBos(pages: seq<Page>) {
    pages != [] && Last(pages).bos
  }

  /** A page may follow these pages. A BOS page brings a serial number not seen before, and comes
      right after another BOS page or after all headers of the link before; while headers are
      missing, any other page belongs to a stream that misses some. */
  predicate MayFollow(past: seq<Page>, p: Page, needs: Needs) {
    if p.bos then Unseen(past, p.serial) && (AfterBos(past) || Incomplete(past, needs) == {})
    else Incomplete(past, needs) == {} || p.serial in Incomplete(past, needs)
  }

  predicate Legal(pages: seq<Page>, needs: Needs) {
    pages == [] || (Legal(Past(pages), needs) && MayFollow(Past(pages), Last(pages), needs))
  }

  /** The header pages of the current link, which starts at the last BOS page that does not follow
      another. */
  function LinkHeaders(pages: seq<Page>, needs: Needs): seq<Page> {
    if pages == [] then []
    else
      var before := LinkHeaders(Past(pages), needs);
      if Last(pages).bos then (if AfterBos(Past(pages)) then before else []) + [Last(pages)]
      else if Incomplete(Past(pages), needs) != {} then before + [Last(pages)]
      else before
  }

  /** The header pages since the last BOS page that came when no stream missed headers. */
  function Kept(pages: seq<Page>, needs: Needs): seq<Page> {
    if pages == [] then []
    else
      var before, none := Kept(Past(pages), needs), Incomplete(Past(pages), needs) == {};
      if Last(pages).bos then (if none then [] else before) + [Last(pages)]
      else if none then before
      else before + [Last(pages)]
  }

  /** The header pages of the current link before these. */
  function Overwritten(pages: seq<Page>, needs: Needs): seq<Page> {
    if pages == [] || (Last(pages).bos && !AfterBos(Past(pages))) then []
    else if Last(pages).bos && Incomplete(Past(pages), needs) == {} then LinkHeaders(Past(pages), needs)
    else Overwritten(Past(pages), needs)
  }

  /** The page at i is a BOS page right after one with which no stream missed headers any more,
      although the link has header bytes. */
  predicate LosesAt(pages: seq<Page>, i: nat, needs: Needs)
    requires i < |pages|
  {
    && pages[i].bos && AfterBos(pages[..i]) && Incomplete(pages[..i], needs) == {}
    && Flat(LinkHeaders(pages[..i], needs)) != []
  }

  /** All other pages. */
  function DataPages(pages: seq<Page>, needs: Needs): seq<Page> {
    if pages == [] then []
    else
      var before := DataPages(Past(pages), needs);
      if !Last(pages).bos && Incomplete(Past(pages), needs) == {} then before + [Last(pages)] else before
  }

  function Flat(pages: seq<Page>): Bytes {
    if pages == [] then [] else Flat(Past(pages)) + Last(pages).header + Last(pages).body
  }

  function Writes(pages: seq<Page>): seq<Bytes> {
    if pages == [] then [] else Writes(Past(pages)) + [Last(pages).header, Last(pages).body]
  }

  // ------------------------------------------------------------------ one page

  predicate Unseen(pages: seq<Page>, serial: int) {
    forall i | 0 <= i < |pages| :: pages[i].serial != serial
  }

  lemma {:induction false} UnseenHasNone(pages: seq<Page>, serial: int)
    requires Unseen(pages, serial)
    ensures Packets(pages, serial) == 0 && serial !in Begun(pages)
  {
    if pages == [] {
    } else {
      UnseenHasNone(Past(pages), serial);
    }
  }

  lemma {:induction false} FindFirst(l: seq<Tracker>, serial: int, i: nat)
    requires i <= |l| && (i < |l| ==> l[i].serial == serial) && forall j | 0 <= j < i :: l[j].serial != serial
    ensures FindTracker(l, serial) == i
  {
    if i == 0 {
    } else {
      FindFirst(l[1..], serial, i - 1);
    }
  }

  /** Counting on changes the count of this stream and of no other. */
  lemma CountsOn(l: seq<Tracker>, serial: int, packets: nat, other: int)
    ensures Counted(CountOn(l, serial, packets), other)
         == Counted(l, other) + if other == serial then packets else 0
  {
    var i, k, u := FindTracker(l, serial), FindTracker(l, other), CountOn(l, serial, packets);
    if i < |l| {
      FindFirst(u, other, k);
    } else if other == serial {
      FindFirst(u, other, 0);
    } else {
      FindFirst(u, other, k + 1);
    }
  }

  /** The tracker list counts for every stream that misses headers, and for no new stream. */
  ghost predicate Tracks(l: seq<Tracker>, pages: seq<Page>, needs: Needs) {
    && (forall s :: s in Incomplete(pages, needs) ==> Counted(l, s) == Packets(pages, s))
    && (forall s :: Unseen(pages, s) ==> Counted(l, s) == 0)
  }

  /** What the callback has made of a page sequence. */
  ghost predicate Routed(r: Router, pages: seq<Page>, needs: Needs) {
    && Sound(r)
    && r.inHeaders == |Incomplete(pages, needs)|
    && HeaderBytes(r) == Flat(Kept(pages, needs))
    && r.sent == Writes(DataPages(pages, needs))
    && Tracks(r.trackers, pages, needs)
  }

  /** What a client is sent first. */
  function HeaderBytes(r: Router): Bytes
    requires Sound(r)
  {
    r.file[..r.headersLen]
  }

  lemma Unsnoc(pages: seq<Page>)
    requires pages != []
    ensures Past(pages) + [Last(pages)] == pages
  {
  }

  lemma Snoc(past: seq<Page>, p: Page)
    ensures Past(past + [p]) == past && Last(past + [p]) == p
  {
  }

  /** How one page changes the set of incomplete streams. */
  lemma IncompleteNext(past: seq<Page>, p: Page, needs: Needs)
    requires MayFollow(past, p, needs)
    ensures var before, after := Incomplete(past, needs), Incomplete(past + [p], needs);
            var missing := Packets(past, p.serial) + p.packets < needs(p.serial);
            after == if missing && (p.bos || before != {}) then before + {p.serial} else before - {p.serial}
    ensures p.bos ==> p.serial !in Incomplete(past, needs) && Packets(past, p.serial) == 0
  {
    Snoc(past, p);
    if p.bos {
      UnseenHasNone(past, p.serial);
    }
  }

  lemma TracksNext(l: seq<Tracker>, past: seq<Page>, p: Page, needs: Needs)
    requires Tracks(l, past, needs) && MayFollow(past, p, needs)
    requires p.bos || Incomplete(past, needs) != {}
    ensures Tracks(CountOn(l, p.serial, p.packets), past + [p], needs)
    ensures Counted(CountOn(l, p.serial, p.packets), p.serial) == Packets(past, p.serial) + p.packets
  {
    var all, u := past + [p], CountOn(l, p.serial, p.packets);
    Snoc(past, p);
    IncompleteNext(past, p, needs);
    CountsOn(l, p.serial, p.packets, p.serial);
    forall s | s in Incomplete(all, needs) ensures Counted(u, s) == Packets(all, s) {
      CountsOn(l, p.serial, p.packets, s);
    }
    forall s | Unseen(all, s) ensures Counted(u, s) == 0 {
      assert all[|past|] == p;
      forall i | 0 <= i < |past| ensures past[i].serial != s {
        assert all[i] == past[i];
      }
      CountsOn(l, p.serial, p.packets, s);
    }
  }

  /** After the first pos bytes of the file, these are the next. */
  lemma Written(file: Bytes, pos: nat, data: Bytes)
    requires pos <= |file|
    ensures WriteAt(file, pos, data)[..pos + |data|] == file[..pos] + data
  {
  }

  lemma FlatSnoc(past: seq<Page>, p: Page)
    ensures Flat(past + [p]) == Flat(past) + (p.header + p.body)
  {
    Snoc(past, p);
    assert (Flat(past) + p.header) + p.body == Flat(past) + (p.header + p.body);
  }

  /** The header file after a page that goes there. */
  lemma FileNext(r: Router, past: seq<Page>, p: Page, needs: Needs)
    requires Routed(r, past, needs) && MayFollow(past, p, needs)
    requires p.bos || Incomplete(past, needs) != {}
    ensures HeaderBytes(Step(r, p, needs)) == Flat(Kept(past + [p], needs))
  {
    Snoc(past, p);
    var kept := if p.bos && Incomplete(past, needs) == {} then [] else Kept(past, needs);
    var pos := if p.bos && r.inHeaders == 0 then 0 else r.pos;
    Written(r.file, pos, p.header + p.body);
    assert r.file[..pos] == Flat(kept);
    FlatSnoc(kept, p);
  }

  lemma StepCounts(r: Router, p: Page, needs: Needs)
    requires Sound(r) && (p.bos || r.inHeaders > 0)
    ensures var full := Counted(CountOn(r.trackers, p.serial, p.packets), p.serial) >= needs(p.serial);
            Step(r, p, needs).inHeaders == r.inHeaders + (if p.bos then 1 else 0) - (if full then 1 else 0)
  {
  }

  lemma OneMore(s: set<int>, x: int)
    ensures |s + {x}| == |s| + if x in s then 0 else 1
    ensures |s - {x}| == |s| - if x in s then 1 else 0
  {
    assert x in s ==> s + {x} == s;
    assert x !in s ==> s - {x} == s;
  }

  /** The number of incomplete streams after such a page. */
  lemma InHeadersNext(r: Router, past: seq<Page>, p: Page, needs: Needs)
    requires Routed(r, past, needs) && MayFollow(past, p, needs)
    requires p.bos || Incomplete(past, needs) != {}
    ensures Step(r, p, needs).inHeaders == |Incomplete(past + [p], needs)|
  {
    StepCounts(r, p, needs);
    IncompleteNext(past, p, needs);
    TracksNext(r.trackers, past, p, needs);
    OneMore(Incomplete(past, needs), p.serial);
  }

  lemma StepParts(r: Router, p: Page, needs: Needs)
    requires Sound(r) && (p.bos || r.inHeaders > 0)
    ensures var u := Step(r, p, needs); u.sent == r.sent && u.trackers == CountOn(r.trackers, p.serial, p.packets)
  {
  }

  /** A page that adds to the header file. */
  lemma HeaderKeeps(r: Router, past: seq<Page>, p: Page, needs: Needs)
    requires Routed(r, past, needs) && MayFollow(past, p, needs)
    requires p.bos || Incomplete(past, needs) != {}
    ensures Routed(Step(r, p, needs), past + [p], needs)
  {
    Snoc(past, p);
    StepParts(r, p, needs);
    FileNext(r, past, p, needs);
    InHeadersNext(r, past, p, needs);
    TracksNext(r.trackers, past, p, needs);
  }

  /** A page that goes to the ring buffer. */
  lemma DataKeeps(r: Router, past: seq<Page>, p: Page, needs: Needs)
    requires Routed(r, past, needs) && MayFollow(past, p, needs)
    requires !p.bos && Incomplete(past, needs) == {}
    ensures Routed(Step(r, p, needs), past + [p], needs)
  {
    Snoc(past, p);
    Snoc(DataPages(past, needs), p);
    IncompleteNext(past, p, needs);
    var all := past + [p];
    forall s | Unseen(all, s) ensures Counted(r.trackers, s) == 0 {
      forall i | 0 <= i < |past| ensures past[i].serial != s {
        assert all[i] == past[i];
      }
    }
  }

  lemma StepRoutes(r: Router, past: seq<Page>, p: Page, needs: Needs)
    requires Routed(r, past, needs) && MayFollow(past, p, needs)
    ensures Routed(Step(r, p, needs), past + [p], needs)
  {
    if p.bos || Incomplete(past, needs) != {} {
      HeaderKeeps(r, past, p, needs);
    } else {
      DataKeeps(r, past, p, needs);
    }
  }

  /** For every page sequence that keeps the rules: in_headers counts the streams that still miss
      headers, the header file holds the header pages since it was last rewound, and all other
      pages have gone to the ring buffer in order. */
  lemma {:induction false} RunRoutes(pages: seq<Page>, needs: Needs)
    requires Legal(pages, needs)
    ensures Routed(Run(pages, needs), pages, needs)
  {
    if pages == [] {
    } else {
      var past, p := Past(pages), Last(pages);
      RunRoutes(past, needs);
      StepRoutes(Run(past, needs), past, p, needs);
      Unsnoc(pages);
    }
  }

  // ------------------------------------------------------------------ when headers are lost

  /** The header pages of the current link: those overwritten, and those kept. */
  lemma {:induction false} LinkSplits(pages: seq<Page>, needs: Needs)
    requires Legal(pages, needs)
    ensures LinkHeaders(pages, needs) == Overwritten(pages, needs) + Kept(pages, needs)
  {
    if pages == [] {
    } else {
      LinkSplits(Past(pages), needs);
    }
  }

  lemma {:induction false} FlatConcat(a: seq<Page>, b: seq<Page>)
    ensures Flat(a + b) == Flat(a) + Flat(b)
  {
    if b == [] {
      assert a + b == a;
    } else {
      FlatConcat(a, Past(b));
      assert a + b == (a + Past(b)) + [Last(b)] && b == Past(b) + [Last(b)];
      FlatSnoc(a + Past(b), Last(b));
      FlatSnoc(Past(b), Last(b));
      Assoc(Flat(a), Flat(Past(b)), Last(b).header + Last(b).body);
    }
  }

  /** The first headers_len bytes of the header file are the current link's header pages, in order. */
  ghost predicate HeadersRight(pages: seq<Page>, needs: Needs) {
    HeaderBytes(Run(pages, needs)) == Flat(LinkHeaders(pages, needs))
  }

  /** They are so exactly if no header byte of the link has been overwritten. */
  lemma HeadersRightNow(pages: seq<Page>, needs: Needs)
    requires Legal(pages, needs)
    ensures HeadersRight(pages, needs) <==> Flat(Overwritten(pages, needs)) == []
    ensures Flat(LinkHeaders(pages, needs)) == Flat(Overwritten(pages, needs)) + HeaderBytes(Run(pages, needs))
  {
    RunRoutes(pages, needs);
    LinkSplits(pages, needs);
    FlatConcat(Overwritten(pages, needs), Kept(pages, needs));
  }

  lemma {:induction false} LegalPrefix(pages: seq<Page>, n: nat, needs: Needs)
    requires Legal(pages, needs) && n <= |pages|
    ensures Legal(pages[..n], needs)
  {
    if n == |pages| {
      assert pages[..n] == pages;
    } else {
      assert Past(pages)[..n] == pages[..n];
      LegalPrefix(Past(pages), n, needs);
    }
  }

  lemma LossIs(upTo: seq<Page>, needs: Needs)
    requires upTo != [] && LosesAt(upTo, |upTo| - 1, needs)
    ensures Flat(Overwritten(upTo, needs)) != [] && Kept(upTo, needs) == [Last(upTo)]
  {
  }

  /** A BOS page that follows so takes the place of all that the link had. */
  lemma HeadersAreLost(pages: seq<Page>, i: nat, needs: Needs)
    requires Legal(pages, needs) && i < |pages| && LosesAt(pages, i, needs)
    ensures !HeadersRight(pages[..i + 1], needs)
    ensures HeaderBytes(Run(pages[..i + 1], needs)) == pages[i].header + pages[i].body
  {
    var upTo := pages[..i + 1];
    LegalPrefix(pages, i + 1, needs);
    assert upTo[..i] == pages[..i];
    LossIs(upTo, needs);
    HeadersRightNow(upTo, needs);
    RunRoutes(upTo, needs);
    FlatSnoc([], pages[i]);
    assert [] + [pages[i]] == [pages[i]];
  }

  lemma {:induction false} NothingIsLost(pages: seq<Page>, needs: Needs)
    requires Legal(pages, needs) && forall i | 0 <= i < |pages| :: !LosesAt(pages, i, needs)
    ensures Flat(Overwritten(pages, needs)) == []
  {
    if pages == [] {
    } else {
      var past := Past(pages);
      forall i | 0 <= i < |past| ensures !LosesAt(past, i, needs) {
        assert past[..i] == pages[..i] && !LosesAt(pages, i, needs);
      }
      NothingIsLost(past, needs);
      assert !LosesAt(pages, |past|, needs);
    }
  }

  lemma PrefixIsRight(pages: seq<Page>, n: nat, needs: Needs)
    requires Legal(pages, needs) && n <= |pages| && forall i | 0 <= i < |pages| :: !LosesAt(pages, i, needs)
    ensures HeadersRight(pages[..n], needs)
  {
    var upTo := pages[..n];
    LegalPrefix(pages, n, needs);
    forall i | 0 <= i < n ensures !LosesAt(upTo, i, needs) {
      assert upTo[..i] == pages[..i] && !LosesAt(pages, i, needs);
    }
    NothingIsLost(upTo, needs);
    HeadersRightNow(upTo, needs);
  }

  /** At every moment of a page sequence the header file is right, exactly if no BOS page follows a
      BOS page that left no stream without its headers. */
  lemma HeadersRightExactly(pages: seq<Page>, needs: Needs)
    requires Legal(pages, needs)
    ensures (forall n | 0 <= n <= |pages| :: HeadersRight(pages[..n], needs))
       <==> (forall i | 0 <= i < |pages| :: !LosesAt(pages, i, needs))
  {
    if i :| 0 <= i < |pages| && LosesAt(pages, i, needs) {
      HeadersAreLost(pages, i, needs);
    } else {
      forall n | 0 <= n <= |pages| ensures HeadersRight(pages[..n], needs) {
        PrefixIsRight(pages, n, needs);
      }
    }
  }

  /** In particular when every BOS page leaves its stream without some of its headers. */
  lemma ShortBosIsSafe(pages: seq<Page>, needs: Needs)
    requires Legal(pages, needs)
    requires forall i | 0 <= i < |pages| && pages[i].bos :: pages[i].packets < needs(pages[i].serial)
    ensures HeadersRight(pages, needs)
  {
    forall i | 0 <= i < |pages| ensures !LosesAt(pages, i, needs) {
      if pages[i].bos && AfterBos(pages[..i]) {
        assert Last(pages[..i]) == pages[i - 1];
        LegalPrefix(pages, i, needs);
        BosIsMissed(pages[..i], needs);
      }
    }
    HeadersRightExactly(pages, needs);
    assert pages[..|pages|] == pages;
  }

  lemma BosIsMissed(pages: seq<Page>, needs: Needs)
    requires Legal(pages, needs) && AfterBos(pages) && Last(pages).packets < needs(Last(pages).serial)
    ensures Last(pages).serial in Incomplete(pages, needs)
  {
    UnseenHasNone(Past(pages), Last(pages).serial);
  }

  // ------------------------------------------------------------------ the callback

  datatype Verdict = Continue | StopOk

  /** struct oggstdin, as far as the callback uses it. */
  class OggStdin {
    var active: bool
    var inHeaders: nat
    var headersLen: nat
    var file: Bytes
    var pos: nat
    var trackers: seq<Tracker>
    var sent: seq<Bytes>

    constructor ()
      ensures Value() == START && active
    {
      active, inHeaders, headersLen := true, 0, 0;
      file, pos := [], 0;
      trackers, sent := [], [];
    }

    function Value(): Router
      reads this
    {
      Router(inHeaders, headersLen, file, pos, trackers, sent)
    }

    method WriteFile(data: Bytes)
      requires pos <= |file|
      modifies `file, `pos
      ensures file == WriteAt(old(file), old(pos), data) && pos == old(pos) + |data| <= |file|
    {
      file := WriteAt(file, pos, data);
      pos := pos + |data|;
    }

    /** Finds the tracker of a stream, or makes one at the front of the list. */
    method FindOrPrepend(serial: int) returns (i: nat)
      modifies `trackers
      ensures i == FindTracker(trackers, serial) < |trackers|
      ensures trackers == CountOn(old(trackers), serial, 0)
    {
      i := 0;
      while i < |trackers| && trackers[i].serial != serial
        invariant i <= |trackers| && forall j | 0 <= j < i :: trackers[j].serial != serial
      {
        i := i + 1;
      }
      FindFirst(trackers, serial, i);
      if i == |trackers| {
        trackers := [Tracker(serial, 0)] + trackers;
        i := 0;
        FindFirst(trackers, serial, 0);
      }
    }

    method ReadPage(p: Page, needs: Needs) returns (verdict: Verdict)
      requires Sound(Value())
      modifies this
      ensures Value() == Step(old(Value()), p, needs) && active == old(active)
      ensures verdict == if active then Continue else StopOk
    {
      if p.bos {
        if inHeaders == 0 {
          headersLen := 0;
          pos := 0;
        }
        inHeaders := inHeaders + 1;
      }
      if inHeaders > 0 {
        AddHeader(p, needs);
      } else {
        sent := sent + [p.header];
        sent := sent + [p.body];
        assert sent == old(sent) + [p.header, p.body];
      }
      verdict := if active then Continue else StopOk;
    }

    /** Adds to the count of the page's stream. */
    method CountPage(p: Page) returns (count: nat)
      modifies `trackers
      ensures trackers == CountOn(old(trackers), p.serial, p.packets) && count == Counted(trackers, p.serial)
    {
      ghost var was := trackers;
      var i := FindOrPrepend(p.serial);
      count := trackers[i].count + p.packets;
      trackers := trackers[i := Tracker(p.serial, count)];
      TrackerPage(was, trackers, i, p);
    }

    method WritePage(p: Page)
      requires pos <= |file|
      modifies `file, `pos, `headersLen
      ensures file == WriteAt(old(file), old(pos), p.header + p.body)
      ensures pos == old(pos) + |p.header + p.body| && headersLen == old(headersLen) + |p.header + p.body|
    {
      WriteTwice(file, pos, p.header, p.body);
      WriteFile(p.header);
      headersLen := headersLen + |p.header|;
      WriteFile(p.body);
      headersLen := headersLen + |p.body|;
    }

    method AddHeader(p: Page, needs: Needs)
      requires Sound(Value()) && inHeaders > 0
      modifies this
      ensures Value() == HeaderPage(old(Value()), p, needs) && active == old(active)
    {
      var count := CountPage(p);
      WritePage(p);
      if count >= needs(p.serial) {
        inHeaders := inHeaders - 1;
      }
    }
  }

  lemma WriteTwice(file: Bytes, pos: nat, a: Bytes, b: Bytes)
    requires pos <= |file|
    ensures pos + |a| <= |WriteAt(file, pos, a)|
    ensures WriteAt(WriteAt(file, pos, a), pos + |a|, b) == WriteAt(file, pos, a + b)
  {
  }

  lemma TrackerPage(was: seq<Tracker>, now: seq<Tracker>, i: nat, p: Page)
    requires var l := CountOn(was, p.serial, 0);
             i == FindTracker(l, p.serial) < |l| && now == l[i := Tracker(p.serial, l[i].count + p.packets)]
    ensures now == CountOn(was, p.serial, p.packets) && now[i].count == Counted(now, p.serial)
  {
    var k := FindTracker(was, p.serial);
    var l := CountOn(was, p.serial, 0);
    if k < |was| {
      FindFirst(l, p.serial, k);
    } else {
      FindFirst(l, p.serial, 0);
    }
    FindFirst(now, p.serial, i);
  }
}
