/** ringbuffer_read and ringbuffer_write, which copy between the circular buffer and memory: calls of
    them in a run, and what a write does that does not fit. */
module RingCopies {
  import opened Common
  import opened RingRuns
  import opened RingState
  import opened RingSystem

  /** A write that fits the free space, as its header asks, is a run of the system. */
  lemma WriteCallIsRun(s: System, buf: seq<Byte>, rule: MinRule) returns (evs: seq<Event>)
    requires Inv(s) && s.writer.Ready? && |buf| <= Free(s.ring)
    ensures WriteCall(s.ring, buf).Filled?
    ensures Reaches(s, evs, rule, AfterFill(s, WriteCall(s.ring, buf).ring, buf))
  {
    var s1 := s.(writer := PlanFill(s.ring, |buf|));
    WriterStepKeeps(s, BeginWrite(|buf|), rule);
    var t := AfterFill(s, WriteCall(s.ring, buf).ring, buf);
    evs := PlannedWriteRun(s1, buf, rule, t);
    assert s1 == Next(s, BeginWrite(|buf|), rule);
    Then(s, BeginWrite(|buf|), evs, rule, t);
    evs := [BeginWrite(|buf|)] + evs;
  }

  lemma WritePieces(r: Ring, buf: seq<Byte>)
    requires r.WellFormed() && |buf| < r.Size()
    ensures var split := Split(r.pwrite, |buf|, r.Size());
            && (split == 0 ==> WriteCall(r, buf) == Filled(Append(r, buf), |buf|, buf))
            && (split > 0 ==> Append(r, buf[..split]).pwrite + |buf[split..]| <= r.Size())
            && (split > 0 ==> WriteCall(r, buf) == Filled(Append(Append(r, buf[..split]), buf[split..]), |buf|, buf))
  {
    var split := Split(r.pwrite, |buf|, r.Size());
    if split == 0 {
      assert buf[..0] == [] && buf[0..] == buf;
      assert Append(r, []) == r;
    }
  }

  lemma PlannedWriteRun(s: System, buf: seq<Byte>, rule: MinRule, t: System) returns (evs: seq<Event>)
    requires Inv(s) && s.writer == PlanFill(s.ring, |buf|) && |buf| < s.ring.Size()
    requires WriteCall(s.ring, buf).Filled? && t == AfterFill(s, WriteCall(s.ring, buf).ring, buf)
    ensures Reaches(s, evs, rule, t)
  {
    WritePieces(s.ring, buf);
    if s.writer.FillingSecond? {
      evs := FillSecondRun(s, Input(buf), rule, t);
    } else {
      var split := s.writer.split;
      assert buf == buf[..split] + buf[split..];
      evs := FillFirstRun(s, buf[..split], Input(buf[split..]), rule, t);
    }
  }

  /** A read of no more than the backlog, as its header asks, is a run of the system. */
  lemma ReadCallIsRun(s: System, rd: int, len: nat, rule: MinRule) returns (evs: seq<Event>)
    requires Inv(s) && rd in s.ring.open && s.sessions[rd].call.Idle? && len <= Avail(s.ring, rd)
    requires RuleFits(s.ring.open, rd, rule)
    ensures Reaches(s, evs, rule, AfterRead(s, rd, len, rule))
  {
    var plan, t := PlanSend(s.ring, rd, len), AfterRead(s, rd, len, rule);
    PlanKeeps(s, rd, len);
    var (r, bytes) := ReadCall(s.ring, rd, len, rule);
    SettleAfterGoto(s, rd, plan, r, bytes);
    evs := PlannedReadRun(Goto(s, rd, plan), rd, len, rule, t);
    Then(s, BeginRead(rd, len), evs, rule, t);
    evs := [BeginRead(rd, len)] + evs;
  }

  lemma ReadInOne(r: Ring, rd: int, len: nat, rule: MinRule)
    requires r.WellFormed() && 0 <= rd < MAX_READERS && len <= Avail(r, rd) && Split(r.pread[rd], len, r.Size()) == 0
    ensures var rest := SendRest(r, rd, len, Moves(len), rule); ReadCall(r, rd, len, rule) == (rest.ring, rest.bytes)
  {
    ReadPieces(r, rd, len, rule, 0, Advance(r, rd, 0));
    assert Advance(r, rd, 0) == r && Front(r, rd, 0) == [];
    assert [] + Front(r, rd, len) == Front(r, rd, len);
  }

  lemma ReadInTwo(r: Ring, rd: int, len: nat, rule: MinRule, split: nat)
    requires r.WellFormed() && 0 <= rd < MAX_READERS && len <= Avail(r, rd)
    requires split == Split(r.pread[rd], len, r.Size()) > 0
    ensures Advance(r, rd, split).pread[rd] + len - split <= r.Size()
    ensures var rest := SendRest(Advance(r, rd, split), rd, len - split, Moves(len), rule);
            ReadCall(r, rd, len, rule) == (rest.ring, Front(r, rd, split) + rest.bytes)
  {
    ReadPieces(r, rd, len, rule, split, Advance(r, rd, split));
  }

  lemma PlannedReadRun(s: System, rd: int, len: nat, rule: MinRule, t: System) returns (evs: seq<Event>)
    requires Inv(s) && rd in s.ring.open && s.sessions[rd].call == PlanSend(s.ring, rd, len)
    requires len <= Avail(s.ring, rd) && RuleFits(s.ring.open, rd, rule)
    requires t == AfterRead(s, rd, len, rule)
    ensures Reaches(s, evs, rule, t)
  {
    var split := Split(s.ring.pread[rd], len, s.ring.Size());
    if split == 0 {
      ReadInOne(s.ring, rd, len, rule);
      evs := SecondPiece(s, rd, len, Moves(len), rule, t);
    } else {
      ReadInTwo(s.ring, rd, len, rule, split);
      evs := FirstPieceFull(s, rd, Moves(len), rule, t);
    }
  }

  // ------------------------------------------------------------------ writes that are not checked

  /** The second piece of a write runs past the array exactly if it is longer than the array. */
  lemma WriteOverrunExact(r: Ring, buf: seq<Byte>)
    requires r.WellFormed()
    ensures WriteCall(r, buf).Overrun? <==> |buf| > 2 * r.Size() - r.pwrite
  {
  }

  /** How far an index is from the write index after a write. */
  lemma DistanceAfterWrite(r: Ring, buf: seq<Byte>, p: int)
    requires r.WellFormed() && WriteCall(r, buf).Filled? && 0 <= p < r.Size()
    ensures WriteCall(r, buf).ring.Size() == r.Size()
    ensures var before, after := Distance(p, r.pwrite, r.Size()), Distance(p, WriteCall(r, buf).ring.pwrite, r.Size());
            && after <= before + |buf|
            && (after == before + |buf| <==> before + |buf| < r.Size())
            && (before + |buf| >= r.Size() ==> after + r.Size() <= before + |buf|)
  {
    var split := Split(r.pwrite, |buf|, r.Size());
    AppendMoves(r, buf[..split], p);
    AppendMoves(Append(r, buf[..split]), buf[split..], p);
  }

  lemma AppendMoves(r: Ring, b: seq<Byte>, p: int)
    requires r.WellFormed() && r.pwrite + |b| <= r.Size() && 0 <= p < r.Size()
    ensures var total := Distance(p, r.pwrite, r.Size()) + |b|;
            Distance(p, Append(r, b).pwrite, r.Size()) == if total < r.Size() then total else total - r.Size()
  {
    AppendLagWraps(r.(minPread := p), b);
  }

  /** The window on the log after any write that stays inside the array. */
  lemma WriteWindow(s: System, buf: seq<Byte>)
    requires Inv(s) && WriteCall(s.ring, buf).Filled?
    ensures var t := AfterFill(s, WriteCall(s.ring, buf).ring, buf);
            Shaped(t) && Window(t.ring.data, t.ring.pwrite, t.log)
  {
    var split := Split(s.ring.pwrite, |buf|, s.ring.Size());
    AppendWindow(s.ring, s.log, buf[..split]);
    AppendWindow(Append(s.ring, buf[..split]), s.log + buf[..split], buf[split..]);
    Assoc(s.log, buf[..split], buf[split..]);
    assert buf[..split] + buf[split..] == buf;
  }

  /** A write that is not compared with the free space keeps what every open reader has yet to be sent
      exactly if no reader's backlog outgrows the array. */
  lemma UncheckedWriteExact(s: System, buf: seq<Byte>)
    requires Inv(s) && WriteCall(s.ring, buf).Filled?
    ensures var t := AfterFill(s, WriteCall(s.ring, buf).ring, buf);
            (forall i | i in s.ring.open :: Avail(t.ring, i) == |t.log| - t.sessions[i].pos) <==>
            (forall i | i in s.ring.open :: Avail(s.ring, i) + |buf| <= s.ring.Size() - 1)
  {
    var t := AfterFill(s, WriteCall(s.ring, buf).ring, buf);
    forall i | i in s.ring.open
      ensures Avail(t.ring, i) == |t.log| - t.sessions[i].pos <==> Avail(s.ring, i) + |buf| <= s.ring.Size() - 1
    {
      AvailIsBacklog(s, i);
      DistanceAfterWrite(s.ring, buf, s.ring.pread[i]);
    }
  }

  /** It keeps the invariant, and with it the free space a bound for later writes, exactly if no reader
      is open or it fits the free space. */
  lemma WriteKeepsExactly(s: System, buf: seq<Byte>)
    requires Inv(s) && s.writer.Ready? && WriteCall(s.ring, buf).Filled?
    ensures Inv(AfterFill(s, WriteCall(s.ring, buf).ring, buf)) <==> s.ring.open == {} || |buf| <= Free(s.ring)
  {
    var t := AfterFill(s, WriteCall(s.ring, buf).ring, buf);
    FreeIsLag(s.ring);
    WriteWindow(s, buf);
    if s.ring.open != {} {
      if |buf| <= Free(s.ring) {
        var evs := WriteCallIsRun(s, buf, TrackAvail);
      } else {
        var i := SomeMember(s.ring.open);
        AvailIsBacklog(s, i);
        DistanceAfterWrite(s.ring, buf, s.ring.minPread);
        assert SessionAt(s, i) && !SessionAt(t, i);
      }
    }
  }
}
