/** When readers and writer of the circular buffer cannot move any byte, and how they get there. */
module RingProgress {
  import opened Common
  import opened RingRuns
  import opened RingState
  import opened RingSystem

  /** With some reader open: no call of ringbuffer_writefd would send anything, or get as far as its
      update_min, and no call of ringbuffer_readfd would ask for anything. */
  ghost predicate NothingMoves(r: Ring)
    requires r.WellFormed()
  {
    r.open != {} && (forall i | i in r.open :: SendPlan(r, i).Idle?) && Pending(FillPlan(r)) == 0
  }

  /** That is so exactly if every backlog is empty and the cached minimum is a whole array behind. */
  lemma NothingMovesExactly(r: Ring)
    requires r.WellFormed() && r.open != {}
    ensures NothingMoves(r) <==> Lag(r) == r.Size() - 1 && forall i | i in r.open :: Avail(r, i) == 0
  {
    FreeIsLag(r);
    forall i | i in r.open ensures SendPlan(r, i).Idle? <==> Avail(r, i) == 0 {
    }
  }

  /** Nothing moves, and no reader is about to refresh the cached minimum. */
  ghost predicate Blocked(s: System)
    requires Shaped(s)
  {
    NothingMoves(s.ring) && forall i | i in s.ring.open :: !s.sessions[i].call.InUpdate?
  }

  lemma UpdateUnblocks(r: Ring, rule: MinRule)
    requires r.WellFormed() && r.Size() > 1
    ensures !NothingMoves(UpdateMin(r, rule))
  {
    var u := UpdateMin(r, rule);
    if r.open == {} {
      ScanKeeps(r, rule, MAX_READERS);
    } else {
      var b := UpdateMinChooses(r, rule);
      NothingMovesExactly(u);
      assert Lag(u) == Avail(u, b);
    }
  }

  lemma StoreUnblocks(s: System, bytes: seq<Byte>)
    requires Inv(s) && s.ring.open != {} && 0 < |bytes| <= Pending(s.writer)
    requires s.ring.pwrite + |bytes| <= s.ring.Size()
    ensures !NothingMoves(Append(s.ring, bytes))
  {
    var i := SomeMember(s.ring.open);
    var u := Append(s.ring, bytes);
    assert SessionAt(s, i);
    AvailIsBacklog(s, i);
    AppendLagWraps(s.ring.(minPread := s.ring.pread[i]), bytes);
    NothingMovesExactly(u);
    assert Avail(u, i) == Avail(s.ring, i) + |bytes|;
  }

  lemma PiecePends(s: System, rd: int)
    requires Inv(s) && rd in s.ring.open && (s.sessions[rd].call.InFirst? || s.sessions[rd].call.InSecond?)
    ensures s.sessions[rd].call.InFirst? ==> s.sessions[rd].call.split < s.sessions[rd].call.todo <= Avail(s.ring, rd)
    ensures s.sessions[rd].call.InSecond? ==> s.sessions[rd].call.rest <= Avail(s.ring, rd)
  {
    assert SessionAt(s, rd);
    AvailIsBacklog(s, rd);
  }

  /** A step of a send that leaves nothing to move leaves a refresh to come, or nothing moved before. */
  lemma SendBlocks(s: System, e: Event, rule: MinRule)
    requires Inv(s) && Enabled(s, e, rule) && (e.SendFirst? || e.SendSecond?)
    requires Inv(Next(s, e, rule)) && Blocked(Next(s, e, rule))
    ensures Blocked(s)
  {
    var t := Next(s, e, rule);
    PiecePends(s, e.rd);
    NothingMovesExactly(t.ring);
    if e.count == -1 {
      forall i | i in s.ring.open ensures !s.sessions[i].call.InUpdate? {
        assert i != e.rd ==> t.sessions[i] == s.sessions[i];
      }
    } else {
      PiecePends(t, e.rd);
      assert false;
    }
  }

  lemma FillBlocks(s: System, e: Event, rule: MinRule)
    requires Inv(s) && Enabled(s, e, rule)
    requires e.BeginFill? || e.BeginWrite? || e.FillFirst? || e.FillSecond? || e.FillFails?
    requires Inv(Next(s, e, rule)) && Blocked(Next(s, e, rule))
    ensures Blocked(s)
  {
    if e.FillFirst? || e.FillSecond? {
      if |e.bytes| > 0 {
        StoreUnblocks(s, e.bytes);
        assert false;
      } else {
        assert Append(s.ring, []) == s.ring;
      }
    }
  }

  lemma PlanBlocks(s: System, e: Event, rule: MinRule)
    requires Inv(s) && Enabled(s, e, rule) && (e.BeginSend? || e.BeginRead?)
    requires Inv(Next(s, e, rule)) && Blocked(Next(s, e, rule))
    ensures Blocked(s)
  {
    var t := Next(s, e, rule);
    forall i | i in s.ring.open ensures !s.sessions[i].call.InUpdate? {
      assert i != e.rd ==> t.sessions[i] == s.sessions[i];
    }
  }

  lemma OpenBlocks(s: System, rule: MinRule)
    requires Inv(s) && OpenGuard(s) && Inv(Next(s, Open, rule)) && Blocked(Next(s, Open, rule))
    ensures Blocked(s) || (s.ring.open == {} && Lag(s.ring) == s.ring.Size() - 1)
  {
    var t := Next(s, Open, rule);
    NothingMovesExactly(t.ring);
    if s.ring.open != {} {
      NothingMovesExactly(s.ring);
      forall i | i in s.ring.open ensures Avail(s.ring, i) == 0 && !s.sessions[i].call.InUpdate? {
        assert i in t.ring.open;
      }
    }
  }

  /** A buffer of more than one byte gets blocked in one way only: a reader opens when there is no
      other, and the cached minimum, which opening does not refresh, is a whole array behind. */
  lemma OnlyOpenBlocks(s: System, e: Event, rule: MinRule)
    requires Inv(s) && Enabled(s, e, rule) && s.ring.Size() > 1
    requires !Blocked(s) && Inv(Next(s, e, rule)) && Blocked(Next(s, e, rule))
    ensures e == Open && s.ring.open == {} && Lag(s.ring) == s.ring.Size() - 1
  {
    match e {
      case Open => OpenBlocks(s, rule);
      case Close(rd) => UpdateUnblocks(s.ring.(open := s.ring.open - {rd}), rule);
      case Flush(rd) => UpdateUnblocks(s.ring.(pread := s.ring.pread[rd := s.ring.pwrite]), rule);
      case BeginSend(_) => PlanBlocks(s, e, rule);
      case BeginRead(_, _) => PlanBlocks(s, e, rule);
      case SendFirst(_, _) => SendBlocks(s, e, rule);
      case SendSecond(_, _) => SendBlocks(s, e, rule);
      case FinishSend(_) => UpdateUnblocks(s.ring, rule);
      case _ => FillBlocks(s, e, rule);
    }
  }

  // ------------------------------------------------------------------ it stays so

  /** Blocked, with every reader and the writer between two calls or in one that will move nothing. */
  ghost predicate Stalled(s: System)
    requires Shaped(s)
  {
    NothingMoves(s.ring) && (forall i | i in s.ring.open :: s.sessions[i].call.Idle?) && Pending(s.writer) == 0
  }

  predicate Transfers(e: Event) {
    e.BeginSend? || e.SendFirst? || e.SendSecond? || e.FinishSend?
    || e.BeginFill? || e.BeginWrite? || e.FillFirst? || e.FillSecond? || e.FillFails?
  }

  lemma StallStep(s: System, e: Event, rule: MinRule)
    requires Inv(s) && Enabled(s, e, rule) && Stalled(s) && Transfers(e)
    ensures Shaped(Next(s, e, rule)) && Stalled(Next(s, e, rule))
    ensures Next(s, e, rule).ring == s.ring && Next(s, e, rule).log == s.log
  {
    NothingMovesExactly(s.ring);
    FreeIsLag(s.ring);
    if e.FillFirst? || e.FillSecond? {
      assert e.bytes == [] && Append(s.ring, []) == s.ring && s.log + [] == s.log;
    }
  }

  /** From then on no sequence of sends, fills and checked writes changes anything. */
  lemma {:induction false} StallStays(s: System, evs: seq<Event>, rule: MinRule)
    requires Inv(s) && Stalled(s) && Legal(s, evs, rule) && forall i | 0 <= i < |evs| :: Transfers(evs[i])
    ensures Run(s, evs, rule).ring == s.ring && Run(s, evs, rule).log == s.log
    decreases |evs|
  {
    if evs == [] {
    } else {
      StepKeeps(s, evs[0], rule);
      StallStep(s, evs[0], rule);
      StallStays(Next(s, evs[0], rule), evs[1..], rule);
    }
  }

  /** A buffer that is filled before its first reader opens stalls. */
  lemma StallIsReached(size: nat, bytes: seq<Byte>, rule: MinRule)
    requires size > 1 && |bytes| == size - 1
    ensures var evs := [BeginFill, FillSecond(bytes), Open];
            Legal(Start(size), evs, rule) && Stalled(Run(Start(size), evs, rule))
  {
    var s := Start(size);
    var s1 := Next(s, BeginFill, rule);
    StepKeeps(s, BeginFill, rule);
    assert s1.writer == FillingSecond(size - 1);
    var s2 := Next(s1, FillSecond(bytes), rule);
    StepKeeps(s1, FillSecond(bytes), rule);
    var s3 := Next(s2, Open, rule);
    StepKeeps(s2, Open, rule);
    FilledThenOpened(s2, s3, rule);
    Stop(s3, rule);
    Then(s2, Open, [], rule, s3);
    Then(s1, FillSecond(bytes), [Open], rule, s3);
    Then(s, BeginFill, [FillSecond(bytes), Open], rule, s3);
    assert [Open] + [] == [Open] && [FillSecond(bytes)] + [Open] == [FillSecond(bytes), Open];
    assert [BeginFill] + [FillSecond(bytes), Open] == [BeginFill, FillSecond(bytes), Open];
  }

  lemma FilledThenOpened(s: System, t: System, rule: MinRule)
    requires Inv(s) && s.ring.open == {} && s.writer.Ready? && Lag(s.ring) == s.ring.Size() - 1
    requires t == Next(s, Open, rule) && Shaped(t)
    ensures Stalled(t)
  {
    assert FirstClosed({}, 0) == 0 && t.ring.open == {0};
    NothingMovesExactly(t.ring);
  }
}
