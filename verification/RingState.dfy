/**
 The circular buffer as a value: what each C function of ringbuffer.c does to the array, the
 indices and the set of open descriptors. The class in RingBuffer.dfy is proved against these
 functions; RingSystem.dfy proves what they promise over whole runs.
 */
module RingState {
  import opened Common
  import opened Modular

  const MAX_READERS := 16

  /** How the scan for the slowest reader keeps its running maximum: AsWritten never stores it
      (the C text), TrackAvail stores it (what the scan is for). */
  datatype MinRule = AsWritten | TrackAvail

  datatype Ring = Ring(data: seq<Byte>, pread: seq<int>, minPread: int, pwrite: int, open: set<int>) {
    function Size(): nat { |data| }

    predicate WellFormed() {
      && |data| > 0
      && |pread| == MAX_READERS
      && (forall i | 0 <= i < MAX_READERS :: 0 <= pread[i] < |data|)
      && 0 <= minPread < |data|
      && 0 <= pwrite < |data|
      && (forall i | i in open :: 0 <= i < MAX_READERS)
    }
  }

  /** Bytes from index `from` round to index `to`. */
  function Distance(from: int, to: int, size: int): int {
    if to - from < 0 then to - from + size else to - from
  }

  function Avail(r: Ring, rd: int): int
    requires r.WellFormed() && 0 <= rd < MAX_READERS
  {
    Distance(r.pread[rd], r.pwrite, r.Size())
  }

  /** How far the writer is ahead of the cached minimum. */
  function Lag(r: Ring): int {
    Distance(r.minPread, r.pwrite, r.Size())
  }

  function Free(r: Ring): int {
    if r.open == {} then r.Size() - 1
    else
      var f := r.minPread - r.pwrite;
      (if f <= 0 then f + r.Size() else f) - 1
  }

  /** Lowest closed descriptor at or above i, or -1. */
  function FirstClosed(open: set<int>, i: nat): (rd: int)
    requires i <= MAX_READERS
    ensures rd == -1 <==> (forall j | i <= j < MAX_READERS :: j in open)
    ensures rd != -1 ==> i <= rd < MAX_READERS && rd !in open && (forall j | i <= j < rd :: j in open)
    decreases MAX_READERS - i
  {
    if i == MAX_READERS then -1
    else if i !in open then i
    else FirstClosed(open, i + 1)
  }

  function Opened(r: Ring): (Ring, int)
    requires r.WellFormed()
  {
    var rd := FirstClosed(r.open, 0);
    if rd == -1 then (r, -1)
    else (r.(open := r.open + {rd}, pread := r.pread[rd := r.pwrite]), rd)
  }

  /** The loop of ringbuffer_update_min after n descriptors: the reader it would keep (or -1)
      and the value of min_avail. */
  function Scan(r: Ring, rule: MinRule, n: nat): (best: (int, int))
    requires r.WellFormed() && n <= MAX_READERS
    ensures -1 <= best.0 < n
  {
    if n == 0 then (-1, -1)
    else
      var (b, m) := Scan(r, rule, n - 1);
      if n - 1 in r.open && Avail(r, n - 1) > m
      then (n - 1, if rule.TrackAvail? then Avail(r, n - 1) else m)
      else (b, m)
  }

  function UpdateMin(r: Ring, rule: MinRule): (u: Ring)
    requires r.WellFormed()
    ensures u.WellFormed()
  {
    var b := Scan(r, rule, MAX_READERS).0;
    if b < 0 then r else r.(minPread := r.pread[b])
  }

  /** Closing flips the descriptor's bit. */
  function Closed(r: Ring, rd: int, rule: MinRule): Ring
    requires r.WellFormed() && 0 <= rd < MAX_READERS
  {
    UpdateMin(r.(open := if rd in r.open then r.open - {rd} else r.open + {rd}), rule)
  }

  function Flushed(r: Ring, rd: int, rule: MinRule): Ring
    requires r.WellFormed() && 0 <= rd < MAX_READERS
  {
    UpdateMin(r.(pread := r.pread[rd := r.pwrite]), rule)
  }

  /** Reader rd takes the n bytes in front of it. */
  function Advance(r: Ring, rd: int, n: nat): (u: Ring)
    requires r.WellFormed() && 0 <= rd < MAX_READERS
    ensures u.WellFormed()
  {
    r.(pread := r.pread[rd := Mod(r.pread[rd] + n, r.Size())])
  }

  function Front(r: Ring, rd: int, n: nat): seq<Byte>
    requires r.WellFormed() && 0 <= rd < MAX_READERS && r.pread[rd] + n <= r.Size()
  {
    r.data[r.pread[rd]..r.pread[rd] + n]
  }

  /** The writer stores bytes that fit before the end of the array. */
  function Append(r: Ring, bytes: seq<Byte>): (u: Ring)
    requires r.WellFormed() && r.pwrite + |bytes| <= r.Size()
    ensures u.WellFormed() && u.Size() == r.Size()
  {
    r.(data := r.data[..r.pwrite] + bytes + r.data[r.pwrite + |bytes|..],
       pwrite := Mod(r.pwrite + |bytes|, r.Size()))
  }

  /** The first of two pieces of a transfer at index p, or 0 when one piece will do. */
  function Split(p: int, len: nat, size: int): int {
    if p + len > size then size - p else 0
  }

  /** No open reader's unread bytes can be overwritten by a writer that respects Free. */
  predicate NoOverwrite(r: Ring)
    requires r.WellFormed()
  {
    forall i | i in r.open :: Free(r) + Avail(r, i) <= r.Size() - 1
  }

  predicate SlowestIs(r: Ring, b: int)
    requires r.WellFormed()
  {
    b in r.open && forall j | j in r.open :: Avail(r, j) <= Avail(r, b)
  }

  predicate HighestIs(r: Ring, b: int) {
    b in r.open && forall j | j in r.open :: j <= b
  }

  /** What a caller of update_min must know: the literal scan is right exactly when the
      highest-numbered open reader is a slowest one. */
  predicate RuleSafe(r: Ring, rule: MinRule)
    requires r.WellFormed()
  {
    rule.TrackAvail? || forall b | b in r.open && HighestIs(r, b) :: SlowestIs(r, b)
  }

  /** What one read or write system call does: it fails, or it moves at most n bytes. */
  datatype Io = Fails | Moves(n: nat)

  function Moved(io: Io, request: nat): int {
    if io.Fails? then -1 else if io.n <= request then io.n else request
  }

  datatype Input = InputFails | Input(bytes: seq<Byte>)

  function Arrived(input: Input, request: nat): seq<Byte> {
    if input.InputFails? then [] else if |input.bytes| <= request then input.bytes else input.bytes[..request]
  }

  /** What a call of ringbuffer_writefd does to the buffer, returns, and hands to the descriptor. */
  datatype SendResult = Sent(ring: Ring, ret: int, bytes: seq<Byte>)

  /** The second (or only) piece of ringbuffer_writefd and the update_min after it. */
  function SendRest(r: Ring, rd: int, rest: nat, io: Io, rule: MinRule): SendResult
    requires r.WellFormed() && 0 <= rd < MAX_READERS && r.pread[rd] + rest <= r.Size()
  {
    var n := Moved(io, rest);
    if n == -1 then Sent(r, -1, [])
    else Sent(UpdateMin(Advance(r, rd, n), rule), n, Front(r, rd, n))
  }

  /** One whole call of ringbuffer_writefd. */
  function SendCall(r: Ring, rd: int, io1: Io, io2: Io, rule: MinRule): SendResult
    requires r.WellFormed() && 0 <= rd < MAX_READERS
  {
    var len := Avail(r, rd);
    var split := Split(r.pread[rd], len, r.Size());
    if len == 0 then Sent(r, 0, [])
    else if split == 0 then SendRest(r, rd, len, io2, rule)
    else
      var n := Moved(io1, split);
      if n == -1 then Sent(r, -1, [])
      else if n < split then Sent(UpdateMin(Advance(r, rd, n), rule), n, Front(r, rd, n))
      else
        var after := SendRest(Advance(r, rd, n), rd, len - n, io2, rule);
        Sent(after.ring, if after.ret == -1 then -1 else n + after.ret, Front(r, rd, n) + after.bytes)
  }

  datatype FillResult = Filled(ring: Ring, ret: int, stored: seq<Byte>) | Overrun(ring: Ring)

  /** The second (or only) read of ringbuffer_readfd. Overrun is the case in which it delivers more
      than there is room for before the end of the array. */
  function FillRest(r: Ring, rest: nat, input: Input): FillResult
    requires r.WellFormed()
  {
    var b := Arrived(input, rest);
    if input.InputFails? then Filled(r, -1, [])
    else if r.pwrite + |b| > r.Size() then Overrun(r)
    else Filled(Append(r, b), |b|, b)
  }

  /** What the two reads of a call come to, once the first has not failed. */
  function Both(b: seq<Byte>, second: FillResult): FillResult {
    match second
    case Filled(u, n, more) => Filled(u, if n == -1 then -1 else |b| + n, b + more)
    case Overrun(u) => Overrun(u)
  }

  /** One whole call of ringbuffer_readfd. As in the C text the second read asks for everything
      that is left even when the first was short. */
  function FillCall(r: Ring, in1: Input, in2: Input): FillResult
    requires r.WellFormed()
  {
    var len := Free(r);
    var split := Split(r.pwrite, len, r.Size());
    if split == 0 then FillRest(r, len, in2)
    else if in1.InputFails? then Filled(r, -1, [])
    else
      var b := Arrived(in1, split);
      Both(b, FillRest(Append(r, b), len - |b|, in2))
  }

  /** ringbuffer_write, which does not compare the length with the free space. Overrun is the case in
      which the second piece is longer than the array. */
  function WriteCall(r: Ring, buf: seq<Byte>): FillResult
    requires r.WellFormed()
  {
    var split := Split(r.pwrite, |buf|, r.Size());
    var r1 := Append(r, buf[..split]);
    if r1.pwrite + |buf| - split > r.Size() then Overrun(r1)
    else Filled(Append(r1, buf[split..]), |buf|, buf)
  }

  /** ringbuffer_read: the caller has checked that the bytes are there. */
  function ReadCall(r: Ring, rd: int, len: nat, rule: MinRule): (Ring, seq<Byte>)
    requires r.WellFormed() && 0 <= rd < MAX_READERS && len <= Avail(r, rd)
  {
    var split := Split(r.pread[rd], len, r.Size());
    var r1 := Advance(r, rd, split);
    (UpdateMin(Advance(r1, rd, len - split), rule), Front(r, rd, split) + Front(r1, rd, len - split))
  }

  // ------------------------------------------------------------------ properties of one call

  lemma FreeIsLag(r: Ring)
    requires r.WellFormed()
    ensures r.open != {} ==> Free(r) == r.Size() - 1 - Lag(r)
    ensures 0 <= Free(r) <= r.Size() - 1 && 0 <= Lag(r) <= r.Size() - 1
  {
  }

  /** What the scan over the first n descriptors keeps. */
  lemma {:induction false} ScanKeeps(r: Ring, rule: MinRule, n: nat)
    requires r.WellFormed() && n <= MAX_READERS
    ensures var (b, m) := Scan(r, rule, n);
            && (b == -1 <==> (forall j | j in r.open :: n <= j))
            && (b >= 0 ==> b in r.open)
            && (rule.AsWritten? ==> m == -1 && forall j | j in r.open && j < n :: j <= b)
            && (rule.TrackAvail? ==> m == (if b >= 0 then Avail(r, b) else -1)
                                     && forall j | j in r.open && j < n :: Avail(r, j) <= m)
  {
    if n == 0 {
    } else {
      ScanKeeps(r, rule, n - 1);
    }
  }

  lemma SomeMember<T>(s: set<T>) returns (i: T)
    requires s != {}
    ensures i in s
  {
    i :| i in s;
  }

  /** The tracked scan caches a slowest reader, the literal one the highest-numbered reader. */
  lemma UpdateMinChooses(r: Ring, rule: MinRule) returns (b: int)
    requires r.WellFormed() && r.open != {}
    ensures b in r.open && UpdateMin(r, rule).minPread == r.pread[b]
    ensures rule.TrackAvail? ==> SlowestIs(r, b)
    ensures rule.AsWritten? ==> HighestIs(r, b)
  {
    ScanKeeps(r, rule, MAX_READERS);
    b := Scan(r, rule, MAX_READERS).0;
    var i := SomeMember(r.open);
  }

  /** Refreshing the cache makes the no-overwrite bound hold exactly when the rule is safe here. */
  lemma UpdateMinExact(r: Ring, rule: MinRule)
    requires r.WellFormed()
    ensures UpdateMin(r, rule).WellFormed()
    ensures NoOverwrite(UpdateMin(r, rule)) <==> RuleSafe(r, rule)
  {
    var u := UpdateMin(r, rule);
    if r.open != {} {
      var b := UpdateMinChooses(r, rule);
      assert forall i | i in r.open :: Avail(u, i) == Avail(r, i);
      assert Free(u) == u.Size() - 1 - Avail(r, b);
    } else {
      ScanKeeps(r, rule, MAX_READERS);
    }
  }

  /** ... and with a slowest reader cached, free and that reader's backlog fill the buffer. */
  lemma UpdateMinTight(r: Ring, rule: MinRule, b: int)
    requires r.WellFormed() && RuleSafe(r, rule) && SlowestIs(r, b)
    ensures Free(UpdateMin(r, rule)) + Avail(UpdateMin(r, rule), b) == r.Size() - 1
  {
    var c := UpdateMinChooses(r, rule);
    assert SlowestIs(r, c);
    assert Avail(r, b) == Avail(r, c);
  }

  /** Two readers, the lower-numbered one behind: the literal scan caches the faster reader and
      reports all seven bytes free although three of them are still unread. */
  lemma LiteralScanOverwrites()
    ensures var r := Ring(seq(8, i => 0), seq(16, i => if i == 1 then 3 else 0), 0, 3, {0, 1});
            r.WellFormed() && NoOverwrite(r) && !NoOverwrite(UpdateMin(r, AsWritten))
            && Avail(r, 0) == 3 && Free(UpdateMin(r, AsWritten)) == 7
  {
    var r := Ring(seq(8, i => 0), seq(16, i => if i == 1 then 3 else 0), 0, 3, {0, 1});
    var b := UpdateMinChooses(r, AsWritten);
    assert b == 1 by { assert 1 in r.open; }
    assert Avail(UpdateMin(r, AsWritten), 0) == 3;
  }
}
