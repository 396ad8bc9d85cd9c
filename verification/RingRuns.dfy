/** Whole runs of the circular buffer: safety, what each reader receives, and how one complete
    call of ringbuffer_writefd or ringbuffer_readfd decomposes into steps. */
module RingRuns {
  import opened Common
  import opened RingState
  import opened RingSystem

  /** evs can be performed from s, one after the other. */
  predicate Legal(s: System, evs: seq<Event>, rule: MinRule)
    requires Inv(s)
    decreases |evs|
  {
    evs == [] ||
    (Enabled(s, evs[0], rule) && (StepKeeps(s, evs[0], rule); Legal(Next(s, evs[0], rule), evs[1..], rule)))
  }

  function Run(s: System, evs: seq<Event>, rule: MinRule): (t: System)
    requires Inv(s) && Legal(s, evs, rule)
    ensures Inv(t)
    decreases |evs|
  {
    if evs == [] then s
    else
      StepKeeps(s, evs[0], rule);
      Run(Next(s, evs[0], rule), evs[1..], rule)
  }

  function StoredBy(e: Event): seq<Byte> {
    match e
    case FillFirst(bytes) => bytes
    case FillSecond(bytes) => bytes
    case _ => []
  }

  /** Everything the events of a run stored, in order. */
  function Stored(evs: seq<Event>): seq<Byte> {
    if evs == [] then [] else StoredBy(evs[0]) + Stored(evs[1..])
  }

  lemma StepLog(s: System, e: Event, rule: MinRule)
    requires Inv(s) && Enabled(s, e, rule)
    ensures Next(s, e, rule).log == s.log + StoredBy(e)
  {
    assert s.log + [] == s.log;
  }

  lemma FirstStep(s: System, evs: seq<Event>, rule: MinRule) returns (t: System)
    requires Inv(s) && Legal(s, evs, rule) && evs != []
    ensures Inv(t) && Legal(t, evs[1..], rule) && Run(s, evs, rule) == Run(t, evs[1..], rule)
    ensures t.log == s.log + StoredBy(evs[0])
  {
    t := Next(s, evs[0], rule);
    StepKeeps(s, evs[0], rule);
    StepLog(s, evs[0], rule);
  }

  lemma {:induction false} LogIsStored(s: System, evs: seq<Event>, rule: MinRule)
    requires Inv(s) && Legal(s, evs, rule)
    ensures Run(s, evs, rule).log == s.log + Stored(evs)
    decreases |evs|
  {
    if evs == [] {
      assert s.log + [] == s.log;
    } else {
      var t := FirstStep(s, evs, rule);
      LogIsStored(t, evs[1..], rule);
      Assoc(s.log, StoredBy(evs[0]), Stored(evs[1..]));
    }
  }

  /** The promise of the buffer, in every run: what each open reader was sent is one contiguous
      slice of everything ever stored, from where its session began; what it has yet to be sent is
      in the array and cannot be overwritten; and all indices stay inside the array. */
  lemma BroadcastSafe(size: nat, evs: seq<Event>, rule: MinRule)
    requires size > 0 && Legal(Start(size), evs, rule)
    ensures var s := Run(Start(size), evs, rule);
            && s.log == Stored(evs)
            && s.ring.WellFormed() && NoOverwrite(s.ring)
            && Window(s.ring.data, s.ring.pwrite, Stored(evs))
            && forall i | i in s.ring.open ::
                 var c := s.sessions[i];
                 && c.start <= c.pos <= |Stored(evs)|
                 && c.got == Stored(evs)[c.start..c.pos]
                 && Avail(s.ring, i) == |Stored(evs)| - c.pos
  {
    LogIsStored(Start(size), evs, rule);
    var s := Run(Start(size), evs, rule);
    assert s.log == Stored(evs) by { assert [] + Stored(evs) == Stored(evs); }
    InvNoOverwrite(s);
    forall i | i in s.ring.open
      ensures Avail(s.ring, i) == |s.log| - s.sessions[i].pos && SessionAt(s, i)
    {
      AvailIsBacklog(s, i);
    }
  }

  /** The literal scan of update_min is safe as long as at most one reader is open. */
  lemma SingleReaderSafe(r: Ring)
    requires r.WellFormed() && forall i, j | i in r.open && j in r.open :: i == j
    ensures RuleSafe(r, AsWritten)
  {
    assert forall b | b in r.open && HighestIs(r, b) :: SlowestIs(r, b);
  }

  // ------------------------------------------------------------------ opening during a fill

  lemma AppendLagWraps(r: Ring, bytes: seq<Byte>)
    requires r.WellFormed() && r.pwrite + |bytes| <= r.Size()
    ensures Lag(Append(r, bytes)) == (if Lag(r) + |bytes| < r.Size() then Lag(r) + |bytes|
                                      else Lag(r) + |bytes| - r.Size())
  {
  }

  /** The lag after two appends that together are shorter than the array. */
  lemma LagTwice(r: Ring, b1: seq<Byte>, b2: seq<Byte>)
    requires r.WellFormed() && |b1| + |b2| < r.Size()
    requires r.pwrite + |b1| <= r.Size() && Append(r, b1).pwrite + |b2| <= r.Size()
    ensures var total := Lag(r) + |b1| + |b2|;
            Lag(Append(Append(r, b1), b2)) == if total < r.Size() then total else total - r.Size()
  {
    AppendLagWraps(r, b1);
    AppendLagWraps(Append(r, b1), b2);
  }

  /** A fill that started with no reader open planned to use the whole array. If a descriptor is
      handed out before it stores its bytes, they stay clear of the new reader's backlog exactly
      when the guard of the Open step holds. */
  lemma OpenGuardExact(s: System, b1: seq<Byte>, b2: seq<Byte>)
    requires Inv(s) && s.ring.open == {} && !s.writer.Ready?
    requires |b1| + |b2| == Pending(s.writer)
    requires s.ring.pwrite + |b1| <= s.ring.Size()
    requires Append(s.ring, b1).pwrite + |b2| <= s.ring.Size()
    ensures FirstClosed({}, 0) == 0
    ensures var r := Opened(s.ring).0;
            NoOverwrite(Append(Append(r, b1), b2)) <==> OpenGuard(s)
  {
    var r := Opened(s.ring).0;
    LagTwice(r, b1, b2);
    var u := Append(Append(r, b1), b2);
    NewReaderLags(r, b1, b2);
    OneReader(u);
  }

  lemma NewReaderLags(r: Ring, b1: seq<Byte>, b2: seq<Byte>)
    requires r.WellFormed() && |b1| + |b2| < r.Size() && r.pread[0] == r.pwrite
    requires r.pwrite + |b1| <= r.Size() && Append(r, b1).pwrite + |b2| <= r.Size()
    ensures Avail(Append(Append(r, b1), b2), 0) == |b1| + |b2|
  {
    LagTwice(r.(minPread := r.pwrite), b1, b2);
  }

  lemma OneReader(r: Ring)
    requires r.WellFormed() && r.open == {0}
    ensures NoOverwrite(r) <==> Avail(r, 0) <= Lag(r)
  {
    FreeIsLag(r);
    assert 0 in r.open;
  }

  // ------------------------------------------------------------------ complete calls

  /** e and then evs lead from s to t. */
  predicate Reaches(s: System, evs: seq<Event>, rule: MinRule, t: System) {
    Inv(s) && Legal(s, evs, rule) && Run(s, evs, rule) == t
  }

  lemma Then(s: System, e: Event, evs: seq<Event>, rule: MinRule, t: System)
    requires Inv(s) && Enabled(s, e, rule) && Reaches(Next(s, e, rule), evs, rule, t)
    ensures Reaches(s, [e] + evs, rule, t)
  {
    StepKeeps(s, e, rule);
    assert ([e] + evs)[1..] == evs;
  }

  lemma Stop(s: System, rule: MinRule)
    requires Inv(s)
    ensures Reaches(s, [], rule, s)
  {
  }

  /** Reader rd has been sent `bytes` and its call is over, leaving the buffer at r. */
  function Settle(s: System, rd: int, r: Ring, bytes: seq<Byte>): System
    requires |s.sessions| == MAX_READERS && 0 <= rd < MAX_READERS
  {
    var c := s.sessions[rd];
    s.(ring := r, sessions := s.sessions[rd := Session(c.start, c.pos + |bytes|, c.got + bytes, Idle)])
  }

  /** Where a complete ringbuffer_writefd call of reader rd leaves the system. */
  function AfterSend(s: System, rd: int, io1: Io, io2: Io, rule: MinRule): System
    requires Shaped(s) && 0 <= rd < MAX_READERS
  {
    var result := SendCall(s.ring, rd, io1, io2, rule);
    Settle(s, rd, result.ring, result.bytes)
  }

  /** Either the scan tracks its maximum, or rd is the only open reader. */
  predicate RuleFits(open: set<int>, rd: int, rule: MinRule) {
    rule.TrackAvail? || forall i | i in open :: i == rd
  }

  lemma SettleNothing(s: System, rd: int, call: ReaderCall)
    requires Shaped(s) && 0 <= rd < MAX_READERS
    ensures Goto(s, rd, Idle) == Settle(s, rd, s.ring, []) == Settle(Goto(s, rd, call), rd, s.ring, [])
  {
    assert s.sessions[rd].got + [] == s.sessions[rd].got;
  }

  lemma SettleTwice(s: System, rd: int, n: nat, call: ReaderCall, r: Ring, bytes: seq<Byte>)
    requires Shaped(s) && 0 <= rd < MAX_READERS && s.ring.pread[rd] + n <= s.ring.Size()
    ensures Settle(Send(s, rd, n, call), rd, r, bytes) == Settle(s, rd, r, Front(s.ring, rd, n) + bytes)
  {
    var c, f := s.sessions[rd], Front(s.ring, rd, n);
    assert (c.got + f) + bytes == c.got + (f + bytes);
  }

  /** The last step of a call, update_min, from a state in which all its bytes are sent. */
  lemma Finish(s: System, rd: int, rule: MinRule, t: System)
    requires Inv(s) && rd in s.ring.open && s.sessions[rd].call.InUpdate? && RuleFits(s.ring.open, rd, rule)
    requires t == Goto(s.(ring := UpdateMin(s.ring, rule)), rd, Idle)
    ensures Reaches(s, [FinishSend(rd)], rule, t)
  {
    if rule.AsWritten? {
      SingleReaderSafe(s.ring);
    }
    StepKeeps(s, FinishSend(rd), rule);
    Stop(t, rule);
    Then(s, FinishSend(rd), [], rule, t);
  }

  /** The second (or only) piece of a call and the update_min after it. */
  lemma SecondPiece(s: System, rd: int, rest: nat, io: Io, rule: MinRule, t: System) returns (evs: seq<Event>)
    requires Inv(s) && rd in s.ring.open && s.sessions[rd].call == InSecond(rest)
    requires RuleFits(s.ring.open, rd, rule)
    requires var result := SendRest(s.ring, rd, rest, io, rule); t == Settle(s, rd, result.ring, result.bytes)
    ensures Reaches(s, evs, rule, t)
  {
    var n := Moved(io, rest);
    var e := SendSecond(rd, n);
    var s1 := Next(s, e, rule);
    StepKeeps(s, e, rule);
    if n == -1 {
      SettleNothing(s, rd, Idle);
      Stop(s1, rule);
      evs := [];
    } else {
      Finish(s1, rd, rule, t);
      evs := [FinishSend(rd)];
    }
    Then(s, e, evs, rule, t);
    evs := [e] + evs;
  }

  lemma AfterShortSend(s: System, rd: int, io1: Io, io2: Io, rule: MinRule)
    requires Shaped(s) && 0 <= rd < MAX_READERS && SendPlan(s.ring, rd).InFirst?
    requires Moved(io1, SendPlan(s.ring, rd).split) < SendPlan(s.ring, rd).split
    ensures var n, t := Moved(io1, SendPlan(s.ring, rd).split), AfterSend(s, rd, io1, io2, rule);
            && (n == -1 ==> t == Settle(s, rd, s.ring, []))
            && (n >= 0 ==> t == Settle(s, rd, UpdateMin(Advance(s.ring, rd, n), rule), Front(s.ring, rd, n)))
  {
  }

  lemma AfterFullSend(s: System, rd: int, io1: Io, io2: Io, rule: MinRule)
    requires Shaped(s) && 0 <= rd < MAX_READERS && SendPlan(s.ring, rd).InFirst?
    requires Moved(io1, SendPlan(s.ring, rd).split) == SendPlan(s.ring, rd).split
    ensures var todo, n := SendPlan(s.ring, rd).todo, SendPlan(s.ring, rd).split;
            var result := SendRest(Advance(s.ring, rd, n), rd, todo - n, io2, rule);
            AfterSend(s, rd, io1, io2, rule) == Settle(s, rd, result.ring, Front(s.ring, rd, n) + result.bytes)
  {
  }

  lemma FirstPieceShort(s: System, rd: int, n: int, rule: MinRule, t: System) returns (evs: seq<Event>)
    requires Inv(s) && rd in s.ring.open && s.sessions[rd].call.InFirst? && RuleFits(s.ring.open, rd, rule)
    requires -1 <= n < s.sessions[rd].call.split <= s.ring.Size() - s.ring.pread[rd]
    requires n == -1 ==> t == Settle(s, rd, s.ring, [])
    requires n >= 0 ==> t == Settle(s, rd, UpdateMin(Advance(s.ring, rd, n), rule), Front(s.ring, rd, n))
    ensures Reaches(s, evs, rule, t)
  {
    var e := SendFirst(rd, n);
    var s1 := Next(s, e, rule);
    StepKeeps(s, e, rule);
    if n == -1 {
      SettleNothing(s, rd, Idle);
      Stop(s1, rule);
      evs := [];
    } else {
      Finish(s1, rd, rule, t);
      evs := [FinishSend(rd)];
    }
    Then(s, e, evs, rule, t);
    evs := [e] + evs;
  }

  /** A first piece that is sent whole. */
  lemma FullStep(s: System, rd: int, rule: MinRule) returns (s1: System)
    requires Inv(s) && rd in s.ring.open && s.sessions[rd].call.InFirst?
    ensures var todo, n := s.sessions[rd].call.todo, s.sessions[rd].call.split;
            && Enabled(s, SendFirst(rd, n), rule) && s1 == Next(s, SendFirst(rd, n), rule) && Inv(s1)
            && s1 == Send(s, rd, n, InSecond(todo - n)) && s1.ring == Advance(s.ring, rd, n)
            && s1.ring.pread[rd] + todo - n <= s1.ring.Size()
  {
    var e := SendFirst(rd, s.sessions[rd].call.split);
    StepKeeps(s, e, rule);
    s1 := Next(s, e, rule);
    assert SessionAt(s1, rd);
  }

  lemma FullThen(s: System, rd: int, s1: System, rest: nat, io2: Io, rule: MinRule, t: System) returns (evs: seq<Event>)
    requires Inv(s) && rd in s.ring.open && s.sessions[rd].call.InFirst?
    requires Enabled(s, SendFirst(rd, s.sessions[rd].call.split), rule)
    requires s1 == Next(s, SendFirst(rd, s.sessions[rd].call.split), rule)
    requires Inv(s1) && rd in s1.ring.open && s1.sessions[rd].call == InSecond(rest) && RuleFits(s1.ring.open, rd, rule)
    requires var result := SendRest(s1.ring, rd, rest, io2, rule); t == Settle(s1, rd, result.ring, result.bytes)
    ensures Reaches(s, evs, rule, t)
  {
    var e := SendFirst(rd, s.sessions[rd].call.split);
    evs := SecondPiece(s1, rd, rest, io2, rule, t);
    Then(s, e, evs, rule, t);
    evs := [e] + evs;
  }

  lemma FullSettles(s: System, rd: int, n: nat, rest: nat, io2: Io, rule: MinRule, s1: System, t: System)
    requires Shaped(s) && 0 <= rd < MAX_READERS && s.ring.pread[rd] + n <= s.ring.Size()
    requires s1 == Send(s, rd, n, InSecond(rest)) && Shaped(s1) && s1.ring.pread[rd] + rest <= s1.ring.Size()
    requires var result := SendRest(s1.ring, rd, rest, io2, rule);
             t == Settle(s, rd, result.ring, Front(s.ring, rd, n) + result.bytes)
    ensures var result := SendRest(s1.ring, rd, rest, io2, rule); t == Settle(s1, rd, result.ring, result.bytes)
  {
    var result := SendRest(s1.ring, rd, rest, io2, rule);
    SettleTwice(s, rd, n, InSecond(rest), result.ring, result.bytes);
  }

  lemma FirstPieceFull(s: System, rd: int, io2: Io, rule: MinRule, t: System) returns (evs: seq<Event>)
    requires Inv(s) && rd in s.ring.open && s.sessions[rd].call.InFirst? && RuleFits(s.ring.open, rd, rule)
    requires s.sessions[rd].call.todo <= Avail(s.ring, rd)
    requires s.sessions[rd].call == PlanSend(s.ring, rd, s.sessions[rd].call.todo)
    requires var todo, n := s.sessions[rd].call.todo, s.sessions[rd].call.split;
             var result := SendRest(Advance(s.ring, rd, n), rd, todo - n, io2, rule);
             t == Settle(s, rd, result.ring, Front(s.ring, rd, n) + result.bytes)
    ensures Reaches(s, evs, rule, t)
  {
    var todo, n := s.sessions[rd].call.todo, s.sessions[rd].call.split;
    var s1 := FullStep(s, rd, rule);
    FullSettles(s, rd, n, todo - n, io2, rule, s1, t);
    evs := FullThen(s, rd, s1, todo - n, io2, rule, t);
  }

  lemma BeginStep(s: System, rd: int, evs: seq<Event>, rule: MinRule, t: System)
    requires Inv(s) && rd in s.ring.open && s.sessions[rd].call.Idle?
    requires Reaches(Goto(s, rd, SendPlan(s.ring, rd)), evs, rule, t)
    ensures Reaches(s, [BeginSend(rd)] + evs, rule, t)
  {
    Then(s, BeginSend(rd), evs, rule, t);
  }

  lemma SettleAfterGoto(s: System, rd: int, call: ReaderCall, r: Ring, bytes: seq<Byte>)
    requires Shaped(s) && 0 <= rd < MAX_READERS
    ensures Settle(Goto(s, rd, call), rd, r, bytes) == Settle(s, rd, r, bytes)
  {
  }

  lemma ShortPiece(s: System, rd: int, io1: Io, io2: Io, rule: MinRule) returns (evs: seq<Event>)
    requires Inv(s) && rd in s.ring.open && s.sessions[rd].call == SendPlan(s.ring, rd)
    requires s.sessions[rd].call.InFirst? && RuleFits(s.ring.open, rd, rule)
    requires Moved(io1, s.sessions[rd].call.split) < s.sessions[rd].call.split
    ensures Reaches(s, evs, rule, AfterSend(s, rd, io1, io2, rule))
  {
    AfterShortSend(s, rd, io1, io2, rule);
    evs := FirstPieceShort(s, rd, Moved(io1, s.sessions[rd].call.split), rule, AfterSend(s, rd, io1, io2, rule));
  }

  lemma FirstPiece(s: System, rd: int, io1: Io, io2: Io, rule: MinRule) returns (evs: seq<Event>)
    requires Inv(s) && rd in s.ring.open && s.sessions[rd].call == SendPlan(s.ring, rd)
    requires s.sessions[rd].call.InFirst? && RuleFits(s.ring.open, rd, rule)
    ensures Reaches(s, evs, rule, AfterSend(s, rd, io1, io2, rule))
  {
    if Moved(io1, s.sessions[rd].call.split) < s.sessions[rd].call.split {
      evs := ShortPiece(s, rd, io1, io2, rule);
    } else {
      AfterFullSend(s, rd, io1, io2, rule);
      evs := FirstPieceFull(s, rd, io2, rule, AfterSend(s, rd, io1, io2, rule));
    }
  }

  /** The rest of a call, from the point where its pieces are planned. */
  lemma PlannedPieces(s: System, rd: int, io1: Io, io2: Io, rule: MinRule) returns (evs: seq<Event>)
    requires Inv(s) && rd in s.ring.open && s.sessions[rd].call == SendPlan(s.ring, rd)
    requires RuleFits(s.ring.open, rd, rule)
    ensures Reaches(s, evs, rule, AfterSend(s, rd, io1, io2, rule))
  {
    match s.sessions[rd].call {
      case Idle =>
        SettleNothing(s, rd, Idle);
        Stop(s, rule);
        evs := [];
      case InFirst(_, _) => evs := FirstPiece(s, rd, io1, io2, rule);
      case InSecond(rest) => evs := SecondPiece(s, rd, rest, io2, rule, AfterSend(s, rd, io1, io2, rule));
    }
  }

  /** A complete ringbuffer_writefd call, with any short counts and failures, is a run of the
      system: so everything BroadcastSafe says holds of the code's calls as well. */
  lemma SendCallIsRun(s: System, rd: int, io1: Io, io2: Io, rule: MinRule) returns (evs: seq<Event>)
    requires Inv(s) && rd in s.ring.open && s.sessions[rd].call.Idle?
    requires RuleFits(s.ring.open, rd, rule)
    ensures Reaches(s, evs, rule, AfterSend(s, rd, io1, io2, rule))
  {
    var plan := SendPlan(s.ring, rd);
    BeginSendKeeps(s, rd);
    evs := PlannedPieces(Goto(s, rd, plan), rd, io1, io2, rule);
    var result := SendCall(s.ring, rd, io1, io2, rule);
    SettleAfterGoto(s, rd, plan, result.ring, result.bytes);
    BeginStep(s, rd, evs, rule, AfterSend(s, rd, io1, io2, rule));
    evs := [BeginSend(rd)] + evs;
  }

  lemma FullSendBytes(r: Ring, rd: int, io1: Io, io2: Io, rule: MinRule)
    requires r.WellFormed() && 0 <= rd < MAX_READERS
    requires io1.Moves? && io1.n >= r.Size() && io2.Moves? && io2.n >= r.Size()
    ensures |SendCall(r, rd, io1, io2, rule).bytes| == Avail(r, rd) == SendCall(r, rd, io1, io2, rule).ret
    ensures SendCall(r, rd, io1, io2, rule).ring.open == r.open
  {
  }

  lemma AfterSendInv(s: System, rd: int, io1: Io, io2: Io, rule: MinRule)
    requires Inv(s) && rd in s.ring.open && s.sessions[rd].call.Idle?
    requires RuleFits(s.ring.open, rd, rule)
    ensures Inv(AfterSend(s, rd, io1, io2, rule))
  {
    var evs := SendCallIsRun(s, rd, io1, io2, rule);
  }

  /** A call whose transfers are not cut short sends the whole backlog: nothing is withheld. */
  lemma FullSendDrains(s: System, rd: int, io1: Io, io2: Io, rule: MinRule)
    requires Inv(s) && rd in s.ring.open && s.sessions[rd].call.Idle?
    requires RuleFits(s.ring.open, rd, rule)
    requires io1.Moves? && io1.n >= s.ring.Size() && io2.Moves? && io2.n >= s.ring.Size()
    ensures var t := AfterSend(s, rd, io1, io2, rule);
            t.sessions[rd].got == s.log[s.sessions[rd].start..] && t.sessions[rd].pos == |s.log|
  {
    AvailIsBacklog(s, rd);
    FullSendBytes(s.ring, rd, io1, io2, rule);
    AfterSendInv(s, rd, io1, io2, rule);
    assert SessionAt(AfterSend(s, rd, io1, io2, rule), rd);
  }

  /** Where a complete ringbuffer_readfd call leaves the system, unless it overran. */
  function AfterFill(s: System, r: Ring, stored: seq<Byte>): System {
    s.(ring := r, log := s.log + stored, writer := Ready)
  }

  /** The unguarded second read of ringbuffer_readfd overruns the array exactly when the first
      piece was wanted and came short, and the second read then delivers past the end. In
      particular never when the first piece is complete, which is the guard of the sending side. */
  lemma OverrunExact(r: Ring, in1: Input, in2: Input)
    requires r.WellFormed()
    ensures var len, split := Free(r), Split(r.pwrite, Free(r), r.Size());
            var n1 := |Arrived(in1, split)|;
            FillCall(r, in1, in2).Overrun? <==>
            split > 0 && in1.Input? && n1 < split && in2.Input?
            && r.pwrite + n1 + (if |in2.bytes| <= len - n1 then |in2.bytes| else len - n1) > r.Size()
  {
  }

  /** Before the call, then: no reads make it overrun exactly if its free space does not wrap. */
  lemma NeverOverrunsExactly(r: Ring)
    requires r.WellFormed()
    ensures (forall in1, in2 :: !FillCall(r, in1, in2).Overrun?) <==> r.pwrite + Free(r) <= r.Size()
  {
    if r.pwrite + Free(r) <= r.Size() {
      forall in1, in2 ensures !FillCall(r, in1, in2).Overrun? {
        OverrunExact(r, in1, in2);
      }
    } else {
      var all: seq<Byte> := seq(Free(r), i => 0);
      OverrunExact(r, Input([]), Input(all));
      assert FillCall(r, Input([]), Input(all)).Overrun?;
    }
  }

  lemma FillSecondRun(s: System, input: Input, rule: MinRule, t: System) returns (evs: seq<Event>)
    requires Inv(s) && s.writer.FillingSecond? && FillRest(s.ring, s.writer.rest, input).Filled?
    requires var result := FillRest(s.ring, s.writer.rest, input); t == AfterFill(s, result.ring, result.stored)
    ensures Reaches(s, evs, rule, t)
  {
    assert s.log + [] == s.log;
    var e := if input.InputFails? then FillFails else FillSecond(Arrived(input, s.writer.rest));
    assert Next(s, e, rule) == t;
    WriterStepKeeps(s, e, rule);
    Stop(t, rule);
    Then(s, e, [], rule, t);
    evs := [e] + [];
  }

  lemma AfterFillTwice(s: System, b1: seq<Byte>, w: WriterCall, r: Ring, b2: seq<Byte>)
    requires Shaped(s) && s.ring.pwrite + |b1| <= s.ring.Size()
    ensures AfterFill(Fill(s, b1, w), r, b2) == AfterFill(s, r, b1 + b2)
  {
    assert (s.log + b1) + b2 == s.log + (b1 + b2);
  }

  lemma FillFailsRun(s: System, rule: MinRule, t: System) returns (evs: seq<Event>)
    requires Inv(s) && !s.writer.Ready? && t == AfterFill(s, s.ring, [])
    ensures Reaches(s, evs, rule, t)
  {
    assert s.log + [] == s.log;
    Stop(t, rule);
    Then(s, FillFails, [], rule, t);
    evs := [FillFails] + [];
  }

  lemma FillFirstRun(s: System, b: seq<Byte>, in2: Input, rule: MinRule, t: System) returns (evs: seq<Event>)
    requires Inv(s) && s.writer.FillingFirst? && |b| <= s.writer.split
    requires FillRest(Append(s.ring, b), s.writer.todo - |b|, in2).Filled?
    requires var result := FillRest(Append(s.ring, b), s.writer.todo - |b|, in2);
             t == AfterFill(s, result.ring, b + result.stored)
    ensures Reaches(s, evs, rule, t)
  {
    var s1 := Fill(s, b, FillingSecond(s.writer.todo - |b|));
    FillKeeps(s, b, s1.writer);
    var result := FillRest(s1.ring, s1.writer.rest, in2);
    AfterFillTwice(s, b, s1.writer, result.ring, result.stored);
    evs := FillSecondRun(s1, in2, rule, t);
    assert s1 == Next(s, FillFirst(b), rule);
    Then(s, FillFirst(b), evs, rule, t);
    evs := [FillFirst(b)] + evs;
  }

  /** The pieces of a call once it has been planned. */
  lemma PlannedFillRun(s: System, in1: Input, in2: Input, rule: MinRule, t: System) returns (evs: seq<Event>)
    requires Inv(s) && s.writer == FillPlan(s.ring) && FillCall(s.ring, in1, in2).Filled?
    requires var result := FillCall(s.ring, in1, in2); t == AfterFill(s, result.ring, result.stored)
    ensures Reaches(s, evs, rule, t)
  {
    if s.writer.FillingSecond? {
      evs := FillSecondRun(s, in2, rule, t);
    } else if in1.InputFails? {
      evs := FillFailsRun(s, rule, t);
    } else {
      evs := FillFirstRun(s, Arrived(in1, s.writer.split), in2, rule, t);
    }
  }

  /** A complete ringbuffer_readfd call that does not overrun is a run of the system. */
  lemma FillCallIsRun(s: System, in1: Input, in2: Input, rule: MinRule) returns (evs: seq<Event>)
    requires Inv(s) && s.writer.Ready?
    requires FillCall(s.ring, in1, in2).Filled?
    ensures var result := FillCall(s.ring, in1, in2);
            Reaches(s, evs, rule, AfterFill(s, result.ring, result.stored))
  {
    var s1 := s.(writer := FillPlan(s.ring));
    WriterStepKeeps(s, BeginFill, rule);
    var result := FillCall(s.ring, in1, in2);
    var t := AfterFill(s, result.ring, result.stored);
    evs := PlannedFillRun(s1, in1, in2, rule, t);
    assert s1 == Next(s, BeginFill, rule);
    Then(s, BeginFill, evs, rule, t);
    evs := [BeginFill] + evs;
  }

  lemma UpdateAndFinish(s: System, rd: int, rule: MinRule) returns (t: System)
    requires Inv(s) && rd in s.ring.open && RuleFits(s.ring.open, rd, rule)
    ensures Inv(t) && t == Goto(s.(ring := UpdateMin(s.ring, rule)), rd, Idle)
  {
    if rule.AsWritten? {
      SingleReaderSafe(s.ring);
    }
    UpdateKeeps(s, rule);
    t := Goto(s.(ring := UpdateMin(s.ring, rule)), rd, Idle);
    GotoKeeps(s.(ring := UpdateMin(s.ring, rule)), rd, Idle);
  }

  lemma SendSettles(s: System, rd: int, n: nat, r: Ring)
    requires Shaped(s) && 0 <= rd < MAX_READERS && s.ring.pread[rd] + n <= s.ring.Size() && r.WellFormed()
    ensures Goto(Send(s, rd, n, InUpdate).(ring := r), rd, Idle) == Settle(s, rd, r, Front(s.ring, rd, n))
  {
  }

  lemma SecondRead(s: System, rd: int, n: nat, rule: MinRule) returns (t: System)
    requires Inv(s) && rd in s.ring.open && RuleFits(s.ring.open, rd, rule)
    requires n <= |s.log| - s.sessions[rd].pos && s.ring.pread[rd] + n <= s.ring.Size()
    ensures Inv(t) && t == Settle(s, rd, UpdateMin(Advance(s.ring, rd, n), rule), Front(s.ring, rd, n))
  {
    var u := Send(s, rd, n, InUpdate);
    SendKeeps(s, rd, n, InUpdate);
    t := UpdateAndFinish(u, rd, rule);
    SendSettles(s, rd, n, UpdateMin(Advance(s.ring, rd, n), rule));
  }

  lemma Adjacent(a: seq<Byte>, b: seq<Byte>, log: seq<Byte>, pos: nat, n: nat, m: nat)
    requires pos + n + m <= |log| && a == log[pos..pos + n] && b == log[pos + n..pos + n + m]
    ensures a + b == log[pos..pos + n + m]
  {
  }

  lemma FrontIs(s: System, rd: int, n: nat, log: seq<Byte>, pos: nat)
    requires Inv(s) && rd in s.ring.open && log == s.log && pos == s.sessions[rd].pos
    requires pos + n <= |log| && s.ring.pread[rd] + n <= s.ring.Size()
    ensures Front(s.ring, rd, n) == log[pos..pos + n]
  {
    FrontIsLog(s, rd, n);
  }

  /** The bytes in front of a reader before and after it has advanced. */
  lemma FrontTwice(s: System, rd: int, n: nat, m: nat, t: System, pos: nat, end: nat)
    requires Inv(s) && rd in s.ring.open && pos == s.sessions[rd].pos
    requires Inv(t) && rd in t.ring.open && t.log == s.log && t.sessions[rd].pos == pos + n
    requires end == pos + n + m <= |s.log|
    requires s.ring.pread[rd] + n <= s.ring.Size() && t.ring.pread[rd] + m <= t.ring.Size()
    ensures Front(s.ring, rd, n) + Front(t.ring, rd, m) == s.log[pos..end]
  {
    FrontIs(s, rd, n, s.log, pos);
    FrontIs(t, rd, m, s.log, pos + n);
    Adjacent(Front(s.ring, rd, n), Front(t.ring, rd, m), s.log, pos, n, m);
  }

  function AfterRead(s: System, rd: int, len: nat, rule: MinRule): System
    requires Shaped(s) && 0 <= rd < MAX_READERS && len <= Avail(s.ring, rd)
  {
    var (r, bytes) := ReadCall(s.ring, rd, len, rule);
    Settle(s, rd, r, bytes)
  }

  /** The first piece of a read. */
  lemma FirstRead(s: System, rd: int, len: nat) returns (s1: System)
    requires Inv(s) && rd in s.ring.open && len <= Avail(s.ring, rd) && len <= |s.log| - s.sessions[rd].pos
    ensures var split := Split(s.ring.pread[rd], len, s.ring.Size());
            && 0 <= split <= len && s1 == Send(s, rd, split, InUpdate) && Inv(s1)
            && s1.ring == Advance(s.ring, rd, split)
            && s1.log == s.log && s1.sessions[rd].pos == s.sessions[rd].pos + split
            && len - split <= |s.log| - s1.sessions[rd].pos && s1.ring.pread[rd] + len - split <= s.ring.Size()
  {
    var split := Split(s.ring.pread[rd], len, s.ring.Size());
    s1 := Send(s, rd, split, InUpdate);
    SendKeeps(s, rd, split, InUpdate);
  }

  lemma ReadPieces(r: Ring, rd: int, len: nat, rule: MinRule, split: nat, r1: Ring)
    requires r.WellFormed() && 0 <= rd < MAX_READERS && len <= Avail(r, rd)
    requires split == Split(r.pread[rd], len, r.Size()) && r1 == Advance(r, rd, split)
    ensures ReadCall(r, rd, len, rule)
         == (UpdateMin(Advance(r1, rd, len - split), rule), Front(r, rd, split) + Front(r1, rd, len - split))
  {
  }

  lemma AfterReadIs(s: System, rd: int, len: nat, rule: MinRule, split: nat, r1: Ring, r2: Ring, bytes: seq<Byte>)
    requires Inv(s) && rd in s.ring.open && len <= Avail(s.ring, rd)
    requires split == Split(s.ring.pread[rd], len, s.ring.Size()) && r1 == Advance(s.ring, rd, split)
    requires r2 == UpdateMin(Advance(r1, rd, len - split), rule)
    requires bytes == Front(r1, rd, len - split)
    ensures AfterRead(s, rd, len, rule) == Settle(s, rd, r2, Front(s.ring, rd, split) + bytes)
  {
    ReadPieces(s.ring, rd, len, rule, split, r1);
  }

  /** A read is what is settled after its first piece. */
  lemma ReadSettles(s: System, rd: int, len: nat, rule: MinRule, split: nat, s1: System, t: System)
    requires Inv(s) && rd in s.ring.open && len <= Avail(s.ring, rd)
    requires split == Split(s.ring.pread[rd], len, s.ring.Size()) && s1 == Send(s, rd, split, InUpdate)
    requires s1.ring.WellFormed() && s1.ring.pread[rd] + len - split <= s1.ring.Size()
    requires t == Settle(s1, rd, UpdateMin(Advance(s1.ring, rd, len - split), rule), Front(s1.ring, rd, len - split))
    ensures t == AfterRead(s, rd, len, rule)
  {
    var r2 := UpdateMin(Advance(s1.ring, rd, len - split), rule);
    var bytes := Front(s1.ring, rd, len - split);
    SettleTwice(s, rd, split, InUpdate, r2, bytes);
    AfterReadIs(s, rd, len, rule, split, s1.ring, r2, bytes);
  }

  lemma ReadInv(s: System, rd: int, len: nat, rule: MinRule) returns (t: System)
    requires Inv(s) && rd in s.ring.open && RuleFits(s.ring.open, rd, rule)
    requires len <= Avail(s.ring, rd) && len <= |s.log| - s.sessions[rd].pos
    ensures Inv(t) && t == AfterRead(s, rd, len, rule)
  {
    var split := Split(s.ring.pread[rd], len, s.ring.Size());
    var s1 := FirstRead(s, rd, len);
    t := SecondRead(s1, rd, len - split, rule);
    ReadSettles(s, rd, len, rule, split, s1, t);
  }

  /** The two pieces of a read, as one slice of the log. */
  lemma PiecesAreLog(s: System, rd: int, len: nat, split: nat, s1: System)
    requires Inv(s) && rd in s.ring.open && split <= len && s.sessions[rd].pos + len <= |s.log|
    requires Inv(s1) && s1.ring == Advance(s.ring, rd, split) && s1.log == s.log
    requires s1.sessions[rd].pos == s.sessions[rd].pos + split
    requires s.ring.pread[rd] + split <= s.ring.Size() && s1.ring.pread[rd] + len - split <= s.ring.Size()
    ensures var pos := s.sessions[rd].pos;
            Front(s.ring, rd, split) + Front(s1.ring, rd, len - split) == s.log[pos..pos + len]
  {
    FrontTwice(s, rd, split, len - split, s1, s.sessions[rd].pos, s.sessions[rd].pos + len);
  }

  lemma ReadBytes(s: System, rd: int, len: nat, rule: MinRule)
    requires Inv(s) && rd in s.ring.open
    requires len <= Avail(s.ring, rd) && len <= |s.log| - s.sessions[rd].pos
    ensures ReadCall(s.ring, rd, len, rule).1 == s.log[s.sessions[rd].pos..s.sessions[rd].pos + len]
  {
    var split := Split(s.ring.pread[rd], len, s.ring.Size());
    var s1 := FirstRead(s, rd, len);
    PiecesAreLog(s, rd, len, split, s1);
    ReadPieces(s.ring, rd, len, rule, split, s1.ring);
  }

  /** ringbuffer_read, called as its header asks, delivers the next len bytes of the log. */
  lemma ReadKeeps(s: System, rd: int, len: nat, rule: MinRule) returns (t: System)
    requires Inv(s) && rd in s.ring.open && RuleFits(s.ring.open, rd, rule)
    requires len <= Avail(s.ring, rd)
    ensures s.sessions[rd].pos + len <= |s.log|
    ensures ReadCall(s.ring, rd, len, rule).1 == s.log[s.sessions[rd].pos..s.sessions[rd].pos + len]
    ensures Inv(t) && t == AfterRead(s, rd, len, rule)
  {
    AvailIsBacklog(s, rd);
    ReadBytes(s, rd, len, rule);
    t := ReadInv(s, rd, len, rule);
  }
}
