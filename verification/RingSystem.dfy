/**
 Concurrent runs of the circular buffer. Each reader thread is somewhere inside
 ringbuffer_writefd or ringbuffer_read (or idle), the writer thread somewhere inside
 ringbuffer_readfd or ringbuffer_write, and every piece of a transfer is a step of its own: steps
 of different threads interleave freely, and every transfer may be short or fail.

 Three fields record history and are never read by a step: `log` is every byte ever written,
 `start` the length of the log when a session was opened, `got` the bytes a session was sent.
 */
module RingSystem {
  import opened Common
  import opened Modular
  import opened RingState

  /** Where a reader is inside ringbuffer_writefd or ringbuffer_read. */
  datatype ReaderCall = Idle | InFirst(todo: nat, split: nat) | InSecond(rest: nat) | InUpdate

  /** Where the writer is inside ringbuffer_readfd or ringbuffer_write. */
  datatype WriterCall = Ready | FillingFirst(todo: nat, split: nat) | FillingSecond(rest: nat)

  datatype Session = Session(start: nat, pos: nat, got: seq<Byte>, call: ReaderCall)

  datatype System = System(ring: Ring, log: seq<Byte>, sessions: seq<Session>, writer: WriterCall)

  /** A transfer count of -1 is a failed system call. */
  datatype Event =
    | Open
    | Close(rd: int)
    | Flush(rd: int)
    | BeginSend(rd: int)
    | SendFirst(rd: int, count: int)
    | SendSecond(rd: int, count: int)
    | FinishSend(rd: int)
    | BeginRead(rd: int, len: nat)
    | BeginFill
    | BeginWrite(len: nat)
    | FillFirst(bytes: seq<Byte>)
    | FillSecond(bytes: seq<Byte>)
    | FillFails

  function Start(size: nat): System
    requires size > 0
  {
    System(Ring(seq(size, i => 0), seq(MAX_READERS, i => 0), 0, 0, {}), [],
           seq(MAX_READERS, i => Session(0, 0, [], Idle)), Ready)
  }

  predicate Shaped(s: System) {
    s.ring.WellFormed() && |s.sessions| == MAX_READERS
  }

  /** A descriptor may be handed out while a fill is in progress only if what that fill may
      still store fits behind the cached minimum. Always true when the fill began with some
      reader open, or when no fill is in progress. */
  predicate OpenGuard(s: System) {
    s.writer.Ready? || Lag(s.ring) + Pending(s.writer) <= s.ring.Size() - 1
  }

  function Pending(w: WriterCall): nat {
    match w
    case Ready => 0
    case FillingFirst(todo, _) => todo
    case FillingSecond(rest) => rest
  }

  // ------------------------------------------------------------------ the invariant

  /** The array holds the last `size` bytes of the log, each at its position modulo size. */
  predicate Window(data: seq<Byte>, pwrite: int, log: seq<Byte>)
    requires |data| > 0
  {
    && pwrite == Mod(|log|, |data|)
    && forall k {:trigger log[k]} | 0 <= k < |log| && |log| - |data| <= k :: data[Mod(k, |data|)] == log[k]
  }

  /** A session's bytes are one contiguous slice of the log, the rest of the log is still in the
      array, and the pieces its thread has planned lie inside the array. */
  predicate SessionOk(size: nat, pread: int, lag: int, log: seq<Byte>, c: Session)
    requires size > 0
  {
    && c.start <= c.pos <= |log| < c.pos + size
    && pread == Mod(c.pos, size)
    && c.got == log[c.start..c.pos]
    && |log| - c.pos <= lag
    && match c.call {
         case InFirst(todo, split) => 0 < split < todo <= |log| - c.pos && pread + split == size
         case InSecond(rest) => rest <= |log| - c.pos && pread + rest <= size
         case _ => true
       }
  }

  predicate SessionAt(s: System, i: int)
    requires Shaped(s) && 0 <= i < MAX_READERS
  {
    SessionOk(s.ring.Size(), s.ring.pread[i], Lag(s.ring), s.log, s.sessions[i])
  }

  predicate WriterOk(size: nat, pwrite: int, writer: WriterCall) {
    && Pending(writer) <= size - 1
    && (writer.FillingFirst? ==> 0 < writer.split <= writer.todo && pwrite + writer.split == size)
  }

  predicate Inv(s: System) {
    && Shaped(s)
    && Window(s.ring.data, s.ring.pwrite, s.log)
    && (forall i | i in s.ring.open :: SessionAt(s, i))
    && WriterOk(s.ring.Size(), s.ring.pwrite, s.writer)
    && (s.ring.open != {} ==> Lag(s.ring) + Pending(s.writer) <= s.ring.Size() - 1)
  }

  // ------------------------------------------------------------------ steps

  predicate Enabled(s: System, e: Event, rule: MinRule)
    requires Shaped(s)
  {
    match e
    case Open => OpenGuard(s)
    case Close(rd) =>
      rd in s.ring.open && s.sessions[rd].call.Idle? && RuleSafe(s.ring.(open := s.ring.open - {rd}), rule)
    case Flush(rd) =>
      && rd in s.ring.open && s.sessions[rd].call.Idle?
      && RuleSafe(s.ring.(pread := s.ring.pread[rd := s.ring.pwrite]), rule)
    case BeginSend(rd) => rd in s.ring.open && s.sessions[rd].call.Idle?
    case SendFirst(rd, n) => rd in s.ring.open && s.sessions[rd].call.InFirst? && -1 <= n <= s.sessions[rd].call.split
    case SendSecond(rd, n) => rd in s.ring.open && s.sessions[rd].call.InSecond? && -1 <= n <= s.sessions[rd].call.rest
    case FinishSend(rd) => rd in s.ring.open && s.sessions[rd].call.InUpdate? && RuleSafe(s.ring, rule)
    case BeginRead(rd, len) => rd in s.ring.open && s.sessions[rd].call.Idle? && len <= Avail(s.ring, rd)
    case BeginFill => s.writer.Ready?
    case BeginWrite(len) => s.writer.Ready? && len <= Free(s.ring)
    case FillFirst(bytes) => s.writer.FillingFirst? && |bytes| <= s.writer.split
    case FillSecond(bytes) => s.writer.FillingSecond? && |bytes| <= s.writer.rest
                              && s.ring.pwrite + |bytes| <= s.ring.Size()
    case FillFails => !s.writer.Ready?
  }

  /** The reader takes n bytes out of the array as it stands now. */
  function Send(s: System, rd: int, n: nat, after: ReaderCall): System
    requires Shaped(s) && 0 <= rd < MAX_READERS && s.ring.pread[rd] + n <= s.ring.Size()
  {
    var c := s.sessions[rd];
    s.(ring := Advance(s.ring, rd, n),
       sessions := s.sessions[rd := Session(c.start, c.pos + n, c.got + Front(s.ring, rd, n), after)])
  }

  function Goto(s: System, rd: int, call: ReaderCall): System
    requires Shaped(s) && 0 <= rd < MAX_READERS
  {
    s.(sessions := s.sessions[rd := s.sessions[rd].(call := call)])
  }

  function Fill(s: System, bytes: seq<Byte>, after: WriterCall): System
    requires Shaped(s) && s.ring.pwrite + |bytes| <= s.ring.Size()
  {
    s.(ring := Append(s.ring, bytes), log := s.log + bytes, writer := after)
  }

  function Restart(s: System, rd: int): System
    requires Shaped(s) && 0 <= rd < MAX_READERS
  {
    s.(sessions := s.sessions[rd := Session(|s.log|, |s.log|, [], Idle)])
  }

  /** A transfer of len bytes from a reader's index, in one piece or two. */
  function PlanSend(r: Ring, rd: int, len: nat): ReaderCall
    requires r.WellFormed() && 0 <= rd < MAX_READERS
  {
    var split := Split(r.pread[rd], len, r.Size());
    if split > 0 then InFirst(len, split) else InSecond(len)
  }

  /** Entry of ringbuffer_writefd: the backlog and the split are computed once. */
  function SendPlan(r: Ring, rd: int): ReaderCall
    requires r.WellFormed() && 0 <= rd < MAX_READERS
  {
    if Avail(r, rd) == 0 then Idle else PlanSend(r, rd, Avail(r, rd))
  }

  /** A transfer of len bytes to the write index, in one piece or two. */
  function PlanFill(r: Ring, len: nat): WriterCall
    requires r.WellFormed()
  {
    var split := Split(r.pwrite, len, r.Size());
    if split > 0 then FillingFirst(len, split) else FillingSecond(len)
  }

  /** Entry of ringbuffer_readfd. */
  function FillPlan(r: Ring): WriterCall
    requires r.WellFormed()
  {
    PlanFill(r, Free(r))
  }

  function Next(s: System, e: Event, rule: MinRule): System
    requires Inv(s) && Enabled(s, e, rule)
  {
    match e
    case Open =>
      var (r, rd) := Opened(s.ring);
      if rd == -1 then s else Restart(s.(ring := r), rd)
    case Close(rd) => s.(ring := Closed(s.ring, rd, rule))
    case Flush(rd) => Restart(s.(ring := Flushed(s.ring, rd, rule)), rd)
    case BeginSend(rd) => Goto(s, rd, SendPlan(s.ring, rd))
    case SendFirst(rd, n) =>
      var c := s.sessions[rd].call;
      if n == -1 then Goto(s, rd, Idle)
      else Send(s, rd, n, if n == c.split then InSecond(c.todo - n) else InUpdate)
    case SendSecond(rd, n) => if n == -1 then Goto(s, rd, Idle) else Send(s, rd, n, InUpdate)
    case FinishSend(rd) => Goto(s.(ring := UpdateMin(s.ring, rule)), rd, Idle)
    case BeginRead(rd, len) => Goto(s, rd, PlanSend(s.ring, rd, len))
    case BeginFill => s.(writer := FillPlan(s.ring))
    case BeginWrite(len) => s.(writer := PlanFill(s.ring, len))
    case FillFirst(bytes) => Fill(s, bytes, FillingSecond(s.writer.todo - |bytes|))
    case FillSecond(bytes) => Fill(s, bytes, Ready)
    case FillFails => s.(writer := Ready)
  }

  // ------------------------------------------------------------------ one step

  lemma AvailIsBacklog(s: System, i: int)
    requires Shaped(s) && Window(s.ring.data, s.ring.pwrite, s.log) && i in s.ring.open && SessionAt(s, i)
    ensures Avail(s.ring, i) == |s.log| - s.sessions[i].pos
  {
    WrappedDistance(s.sessions[i].pos, |s.log|, s.ring.Size());
  }

  /** The no-overwrite bound in every reachable state, however stale the cached minimum. */
  lemma InvNoOverwrite(s: System)
    requires Inv(s)
    ensures NoOverwrite(s.ring)
  {
    FreeIsLag(s.ring);
    forall i | i in s.ring.open ensures Free(s.ring) + Avail(s.ring, i) <= s.ring.Size() - 1 {
      AvailIsBacklog(s, i);
    }
  }

  lemma NotAt(length: nat, j: nat, n: nat, k: nat)
    requires n > 0 && Mod(length, n) + j < n && k < length && length + j - n < k
    ensures Mod(k, n) != Mod(length, n) + j
  {
    Forward(length, j, n);
    Apart(k, length + j, n);
  }

  /** A position of the log that stays in the window is not one of those being written. */
  lemma NotWritten(length: nat, count: nat, n: nat, k: nat)
    requires n > 0 && Mod(length, n) + count <= n && k < length && length + count - n <= k
    ensures Mod(k, n) < Mod(length, n) || Mod(length, n) + count <= Mod(k, n)
  {
    if count > 0 {
      var first, i := Mod(length, n), Mod(k, n);
      NotAt(length, if first <= i < first + count then i - first else 0, n, k);
    }
  }

  lemma AppendedAt(r: Ring, bytes: seq<Byte>, i: nat)
    requires r.WellFormed() && r.pwrite + |bytes| <= r.Size() && i < r.Size()
    ensures Append(r, bytes).data[i] == if r.pwrite <= i < r.pwrite + |bytes| then bytes[i - r.pwrite] else r.data[i]
  {
  }

  /** Storing bytes at the write index extends the window by exactly those bytes. */
  lemma AppendWindow(r: Ring, log: seq<Byte>, bytes: seq<Byte>)
    requires r.WellFormed() && Window(r.data, r.pwrite, log) && r.pwrite + |bytes| <= r.Size()
    ensures var u := Append(r, bytes); Window(u.data, u.pwrite, log + bytes)
  {
    var u, more, n := Append(r, bytes), log + bytes, r.Size();
    AddMod(|log|, |bytes|, n);
    forall k | 0 <= k < |more| && |more| - n <= k ensures u.data[Mod(k, n)] == more[k] {
      AppendedAt(r, bytes, Mod(k, n));
      if k >= |log| {
        Forward(|log|, k - |log|, n);
      } else {
        NotWritten(|log|, |bytes|, n, k);
      }
    }
  }

  lemma AppendLag(r: Ring, bytes: seq<Byte>)
    requires r.WellFormed() && r.pwrite + |bytes| <= r.Size() && Lag(r) + |bytes| < r.Size()
    ensures Lag(Append(r, bytes)) == Lag(r) + |bytes|
  {
  }

  lemma FillKeeps(s: System, bytes: seq<Byte>, after: WriterCall)
    requires Inv(s) && s.ring.pwrite + |bytes| <= s.ring.Size()
    requires !after.FillingFirst? && |bytes| + Pending(after) <= Pending(s.writer)
    ensures Inv(Fill(s, bytes, after))
  {
    AppendWindow(s.ring, s.log, bytes);
    if s.ring.open != {} {
      AppendLag(s.ring, bytes);
    }
    var t := Fill(s, bytes, after);
    forall i | i in t.ring.open ensures SessionAt(t, i) {
      assert SessionAt(s, i);
      var c := s.sessions[i];
      assert t.log[c.start..c.pos] == s.log[c.start..c.pos];
    }
  }

  /** A stretch of the array that does not wrap, from the position pos on. */
  lemma StretchIsLog(data: seq<Byte>, pwrite: int, log: seq<Byte>, pos: nat, n: nat)
    requires |data| > 0 && Window(data, pwrite, log)
    requires pos + n <= |log| < pos + |data| && Mod(pos, |data|) + n <= |data|
    ensures data[Mod(pos, |data|)..Mod(pos, |data|) + n] == log[pos..pos + n]
  {
    var first := Mod(pos, |data|);
    var a, b := data[first..first + n], log[pos..pos + n];
    forall j | 0 <= j < |a| ensures a[j] == b[j] {
      Forward(pos, j, |data|);
      assert log[pos + j] == data[Mod(pos + j, |data|)];
    }
  }

  /** The n bytes in front of a reader are the next n bytes of the log. */
  lemma FrontIsLog(s: System, rd: int, n: nat)
    requires Inv(s) && rd in s.ring.open
    requires n <= |s.log| - s.sessions[rd].pos && s.ring.pread[rd] + n <= s.ring.Size()
    ensures Front(s.ring, rd, n) == s.log[s.sessions[rd].pos..s.sessions[rd].pos + n]
  {
    assert SessionAt(s, rd);
    StretchIsLog(s.ring.data, s.ring.pwrite, s.log, s.sessions[rd].pos, n);
  }

  lemma SentSession(s: System, rd: int, n: nat, after: ReaderCall)
    requires Inv(s) && rd in s.ring.open && !after.InFirst?
    requires n <= |s.log| - s.sessions[rd].pos && s.ring.pread[rd] + n <= s.ring.Size()
    requires after.InSecond? ==> after.rest + n <= |s.log| - s.sessions[rd].pos && after.rest < s.ring.Size()
                                 && s.ring.pread[rd] + n == s.ring.Size()
    ensures SessionAt(Send(s, rd, n, after), rd)
  {
    FrontIsLog(s, rd, n);
    assert SessionAt(s, rd);
    SessionOfSend(s, rd, n, after);
  }

  lemma SessionOfSend(s: System, rd: int, n: nat, after: ReaderCall)
    requires Shaped(s) && 0 <= rd < MAX_READERS && s.ring.pread[rd] + n <= s.ring.Size() && SessionAt(s, rd)
    requires n <= |s.log| - s.sessions[rd].pos && !after.InFirst?
    requires Front(s.ring, rd, n) == s.log[s.sessions[rd].pos..s.sessions[rd].pos + n]
    requires after.InSecond? ==> after.rest + n <= |s.log| - s.sessions[rd].pos && after.rest < s.ring.Size()
                                 && s.ring.pread[rd] + n == s.ring.Size()
    ensures SessionAt(Send(s, rd, n, after), rd)
  {
    var c, size, t := s.sessions[rd], s.ring.Size(), Send(s, rd, n, after);
    AddMod(c.pos, n, size);
    MovedOn(size, s.ring.pread[rd], Lag(s.ring), s.log, c, n, Front(s.ring, rd, n), after);
    SessionKept(t, rd, Mod(s.ring.pread[rd] + n, size), Lag(s.ring), s.log,
                Session(c.start, c.pos + n, c.got + Front(s.ring, rd, n), after));
  }

  lemma SessionKept(t: System, rd: int, pread: int, lag: int, log: seq<Byte>, d: Session)
    requires Shaped(t) && 0 <= rd < MAX_READERS && t.sessions[rd] == d && t.ring.pread[rd] == pread
    requires Lag(t.ring) == lag && t.log == log && SessionOk(t.ring.Size(), pread, lag, log, d)
    ensures SessionAt(t, rd)
  {
  }

  /** A session whose reader has moved on by n bytes. */
  lemma MovedOn(size: nat, pread: int, lag: int, log: seq<Byte>, c: Session, n: nat, bytes: seq<Byte>, call: ReaderCall)
    requires size > 0 && SessionOk(size, pread, lag, log, c) && c.pos + n <= |log| && pread + n <= size
    requires bytes == log[c.pos..c.pos + n] && Mod(Mod(c.pos, size) + n, size) == Mod(c.pos + n, size)
    requires !call.InFirst?
    requires call.InSecond? ==> call.rest + n <= |log| - c.pos && call.rest < size && pread + n == size
    ensures SessionOk(size, Mod(pread + n, size), lag, log, Session(c.start, c.pos + n, c.got + bytes, call))
  {
    assert log[c.start..c.pos] + log[c.pos..c.pos + n] == log[c.start..c.pos + n];
  }

  lemma SendKeeps(s: System, rd: int, n: nat, after: ReaderCall)
    requires Inv(s) && rd in s.ring.open && !after.InFirst?
    requires n <= |s.log| - s.sessions[rd].pos && s.ring.pread[rd] + n <= s.ring.Size()
    requires after.InSecond? ==> after.rest + n <= |s.log| - s.sessions[rd].pos && after.rest < s.ring.Size()
                                 && s.ring.pread[rd] + n == s.ring.Size()
    ensures Inv(Send(s, rd, n, after))
  {
    var t := Send(s, rd, n, after);
    SentSession(s, rd, n, after);
    forall i | i in t.ring.open && i != rd ensures SessionAt(t, i) {
      assert SessionAt(s, i);
    }
  }

  lemma PlanKeeps(s: System, rd: int, len: nat)
    requires Inv(s) && rd in s.ring.open && len <= Avail(s.ring, rd)
    ensures Inv(Goto(s, rd, PlanSend(s.ring, rd, len)))
  {
    AvailIsBacklog(s, rd);
    var t := Goto(s, rd, PlanSend(s.ring, rd, len));
    forall i | i in t.ring.open ensures SessionAt(t, i) {
      assert SessionAt(s, i);
    }
  }

  lemma BeginSendKeeps(s: System, rd: int)
    requires Inv(s) && rd in s.ring.open
    ensures Inv(Goto(s, rd, SendPlan(s.ring, rd)))
  {
    if Avail(s.ring, rd) == 0 {
      GotoKeeps(s, rd, Idle);
    } else {
      PlanKeeps(s, rd, Avail(s.ring, rd));
    }
  }

  lemma GotoKeeps(s: System, rd: int, call: ReaderCall)
    requires Inv(s) && rd in s.ring.open && (call.Idle? || call.InUpdate?)
    ensures Inv(Goto(s, rd, call))
  {
    forall i | i in s.ring.open ensures SessionAt(Goto(s, rd, call), i) {
      assert SessionAt(s, i);
    }
  }

  /** Re-reading the cached minimum never moves it past a slowest reader, nor back. */
  lemma UpdateKeeps(s: System, rule: MinRule)
    requires Inv(s) && RuleSafe(s.ring, rule)
    ensures Inv(s.(ring := UpdateMin(s.ring, rule)))
  {
    var t := s.(ring := UpdateMin(s.ring, rule));
    if s.ring.open == {} {
      ScanKeeps(s.ring, rule, MAX_READERS);
    } else {
      var b := UpdateMinChooses(s.ring, rule);
      assert Lag(t.ring) == Avail(s.ring, b);
      forall i | i in t.ring.open ensures SessionAt(t, i) {
        assert SessionAt(s, i) && SessionAt(s, b);
        AvailIsBacklog(s, i);
        AvailIsBacklog(s, b);
        assert SlowestIs(s.ring, b);
      }
      AvailIsBacklog(s, b);
      assert SessionAt(s, b);
    }
  }

  lemma OpenKeeps(s: System, rule: MinRule)
    requires Inv(s) && OpenGuard(s)
    ensures Inv(Next(s, Open, rule))
  {
    var t := Next(s, Open, rule);
    FreeIsLag(s.ring);
    forall i | i in t.ring.open ensures SessionAt(t, i) {
      assert i in s.ring.open ==> SessionAt(s, i);
    }
  }

  lemma RestartKeeps(s: System, rd: int, rule: MinRule)
    requires Inv(s) && rd in s.ring.open
    ensures Inv(Restart(s.(ring := s.ring.(pread := s.ring.pread[rd := s.ring.pwrite])), rd))
  {
    var t := Restart(s.(ring := s.ring.(pread := s.ring.pread[rd := s.ring.pwrite])), rd);
    FreeIsLag(s.ring);
    forall i | i in t.ring.open ensures SessionAt(t, i) {
      assert SessionAt(s, i);
    }
  }

  lemma CloseKeeps(s: System, rd: int, rule: MinRule)
    requires Inv(s) && Enabled(s, Close(rd), rule)
    ensures Inv(Next(s, Close(rd), rule))
  {
    var t := s.(ring := s.ring.(open := s.ring.open - {rd}));
    assert forall i | i in t.ring.open :: SessionAt(s, i) ==> SessionAt(t, i);
    UpdateKeeps(t, rule);
  }

  lemma FlushKeeps(s: System, rd: int, rule: MinRule)
    requires Inv(s) && Enabled(s, Flush(rd), rule)
    ensures Inv(Next(s, Flush(rd), rule))
  {
    RestartKeeps(s, rd, rule);
    UpdateKeeps(Restart(s.(ring := s.ring.(pread := s.ring.pread[rd := s.ring.pwrite])), rd), rule);
  }

  lemma SendFirstKeeps(s: System, rd: int, n: nat)
    requires Inv(s) && rd in s.ring.open && s.sessions[rd].call.InFirst? && n <= s.sessions[rd].call.split
    ensures var c := s.sessions[rd].call;
            Inv(Send(s, rd, n, if n == c.split then InSecond(c.todo - n) else InUpdate))
  {
    assert SessionAt(s, rd);
    var c := s.sessions[rd].call;
    SendKeeps(s, rd, n, if n == c.split then InSecond(c.todo - n) else InUpdate);
  }

  lemma SendSecondKeeps(s: System, rd: int, n: nat)
    requires Inv(s) && rd in s.ring.open && s.sessions[rd].call.InSecond? && n <= s.sessions[rd].call.rest
    ensures Inv(Send(s, rd, n, InUpdate))
  {
    assert SessionAt(s, rd);
    SendKeeps(s, rd, n, InUpdate);
  }

  lemma WriterStepKeeps(s: System, e: Event, rule: MinRule)
    requires Inv(s) && Enabled(s, e, rule)
    requires e.BeginFill? || e.BeginWrite? || e.FillFirst? || e.FillSecond? || e.FillFails?
    ensures Inv(Next(s, e, rule))
  {
    match e {
      case BeginFill => FreeIsLag(s.ring);
      case BeginWrite(_) => FreeIsLag(s.ring);
      case FillFirst(bytes) => FillKeeps(s, bytes, FillingSecond(s.writer.todo - |bytes|));
      case FillSecond(bytes) => FillKeeps(s, bytes, Ready);
      case FillFails =>
    }
  }

  lemma SendStepKeeps(s: System, e: Event, rule: MinRule)
    requires Inv(s) && Enabled(s, e, rule) && (e.SendFirst? || e.SendSecond?)
    ensures Inv(Next(s, e, rule))
  {
    var t := Next(s, e, rule);
    if e.count == -1 {
      GotoKeeps(s, e.rd, Idle);
      assert t == Goto(s, e.rd, Idle);
    } else if e.SendFirst? {
      var c := s.sessions[e.rd].call;
      SendFirstKeeps(s, e.rd, e.count);
      assert t == Send(s, e.rd, e.count, if e.count == c.split then InSecond(c.todo - e.count) else InUpdate);
    } else {
      SendSecondKeeps(s, e.rd, e.count);
      assert t == Send(s, e.rd, e.count, InUpdate);
    }
  }

  lemma FinishKeeps(s: System, rd: int, rule: MinRule)
    requires Inv(s) && Enabled(s, FinishSend(rd), rule)
    ensures Inv(Next(s, FinishSend(rd), rule))
  {
    UpdateKeeps(s, rule);
    GotoKeeps(s.(ring := UpdateMin(s.ring, rule)), rd, Idle);
  }

  /** Every step of every thread keeps the invariant. */
  lemma StepKeeps(s: System, e: Event, rule: MinRule)
    requires Inv(s) && Enabled(s, e, rule)
    ensures Inv(Next(s, e, rule))
  {
    match e {
      case Open => OpenKeeps(s, rule);
      case Close(rd) => CloseKeeps(s, rd, rule);
      case Flush(rd) => FlushKeeps(s, rd, rule);
      case BeginSend(rd) => BeginSendKeeps(s, rd);
      case BeginRead(rd, len) => PlanKeeps(s, rd, len);
      case SendFirst(_, _) => SendStepKeeps(s, e, rule);
      case SendSecond(_, _) => SendStepKeeps(s, e, rule);
      case FinishSend(rd) => FinishKeeps(s, rd, rule);
      case _ => WriterStepKeeps(s, e, rule);
    }
  }
}
