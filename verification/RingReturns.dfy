/** What the two calls on descriptors tell their callers, and exactly what they move. */
module RingReturns {
  import opened Common
  import opened Modular
  import opened RingState

  predicate SendWraps(r: Ring, rd: int)
    requires r.WellFormed() && 0 <= rd < MAX_READERS
  {
    r.pread[rd] + Avail(r, rd) > r.Size()
  }

  predicate FillWraps(r: Ring) {
    r.pwrite + Free(r) > r.Size()
  }

  /** How much a transfer of at most `most` moves. */
  function Count(io: Io, most: int): int {
    match io
    case Fails => 0
    case Moves(n) => if n <= most then n else most
  }

  /** ringbuffer_writefd returns -1 exactly if there is something to send and a write that it makes
      fails: the only one, or the first of two, or the second after a complete first. Otherwise it
      returns how many bytes it has handed to the descriptor. */
  lemma SendReturns(r: Ring, rd: int, io1: Io, io2: Io, rule: MinRule)
    requires r.WellFormed() && 0 <= rd < MAX_READERS
    ensures var c := SendCall(r, rd, io1, io2, rule);
            && (c.ret == -1 <==>
                Avail(r, rd) > 0 &&
                if SendWraps(r, rd) then io1.Fails? || (io1.n >= r.Size() - r.pread[rd] && io2.Fails?)
                else io2.Fails?)
            && (c.ret != -1 ==> c.ret == |c.bytes|)
  {
  }

  /** The three ways that a send goes. */
  lemma OnePiece(r: Ring, rd: int, io1: Io, io2: Io, rule: MinRule)
    requires r.WellFormed() && 0 <= rd < MAX_READERS && !SendWraps(r, rd) && Avail(r, rd) > 0
    ensures SendCall(r, rd, io1, io2, rule) == SendRest(r, rd, Avail(r, rd), io2, rule)
  {
  }

  lemma ShortFirst(r: Ring, rd: int, io1: Io, io2: Io, rule: MinRule, n: nat)
    requires r.WellFormed() && 0 <= rd < MAX_READERS && SendWraps(r, rd)
    requires n == Count(io1, r.Size() - r.pread[rd]) < r.Size() - r.pread[rd]
    ensures var c := SendCall(r, rd, io1, io2, rule);
            c == if io1.Fails? then Sent(r, -1, []) else Sent(UpdateMin(Advance(r, rd, n), rule), n, Front(r, rd, n))
  {
  }

  lemma TwoPieces(r: Ring, rd: int, io1: Io, io2: Io, rule: MinRule, n: nat, r1: Ring)
    requires r.WellFormed() && 0 <= rd < MAX_READERS && SendWraps(r, rd)
    requires n == r.Size() - r.pread[rd] == Count(io1, n) && r1 == Advance(r, rd, n)
    ensures r1.pread[rd] == 0 && 0 <= Avail(r, rd) - n <= r.Size()
    ensures var c, after := SendCall(r, rd, io1, io2, rule), SendRest(r1, rd, Avail(r, rd) - n, io2, rule);
            && c.ring == after.ring && c.bytes == Front(r, rd, n) + after.bytes
            && (c.ret == -1 <==> after.ret == -1)
  {
  }

  /** The array from a reader's index on, round its end. */
  function Backlog(r: Ring, rd: int): (b: seq<Byte>)
    requires r.WellFormed() && 0 <= rd < MAX_READERS
    ensures |b| == r.Size()
  {
    r.data[r.pread[rd]..] + r.data[..r.pread[rd]]
  }

  lemma FrontIsBacklog(r: Ring, rd: int, n: nat)
    requires r.WellFormed() && 0 <= rd < MAX_READERS && r.pread[rd] + n <= r.Size()
    ensures Front(r, rd, n) == Backlog(r, rd)[..n]
  {
  }

  lemma FrontsAreBacklog(r: Ring, rd: int, n: nat, r1: Ring, m: nat)
    requires r.WellFormed() && 0 <= rd < MAX_READERS && n == r.Size() - r.pread[rd] && n + m <= r.Size()
    requires r1 == Advance(r, rd, n) && r1.pread[rd] == 0
    ensures Front(r, rd, n) + Front(r1, rd, m) == Backlog(r, rd)[..n + m]
  {
    assert Front(r, rd, n) == r.data[r.pread[rd]..] && Front(r1, rd, m) == r.data[..m];
  }

  lemma RestMoves(r: Ring, rd: int, rest: nat, io: Io, rule: MinRule)
    requires r.WellFormed() && 0 <= rd < MAX_READERS && r.pread[rd] + rest <= r.Size()
    ensures var c, n := SendRest(r, rd, rest, io, rule), Count(io, rest);
            && c.bytes == Front(r, rd, n) && (c.ret == -1 <==> io.Fails?)
            && c.ring == if io.Fails? then Advance(r, rd, n) else UpdateMin(Advance(r, rd, n), rule)
  {
    NoAdvance(r, rd);
  }

  /** A call has handed over the first n bytes of the backlog, the reader is n bytes further, and the
      cached minimum is refreshed if no write has failed. */
  predicate Does(r: Ring, rd: int, c: SendResult, n: int, rule: MinRule)
    requires r.WellFormed() && 0 <= rd < MAX_READERS
  {
    && 0 <= n <= r.Size() && |c.bytes| == n && c.bytes == Backlog(r, rd)[..n]
    && c.ring == if c.ret == -1 then Advance(r, rd, n) else UpdateMin(Advance(r, rd, n), rule)
  }

  lemma OneDoes(r: Ring, rd: int, io1: Io, io2: Io, rule: MinRule)
    requires r.WellFormed() && 0 <= rd < MAX_READERS && !SendWraps(r, rd) && Avail(r, rd) > 0
    ensures Does(r, rd, SendCall(r, rd, io1, io2, rule), Count(io2, Avail(r, rd)), rule)
  {
    OnePiece(r, rd, io1, io2, rule);
    RestMoves(r, rd, Avail(r, rd), io2, rule);
    FrontIsBacklog(r, rd, Count(io2, Avail(r, rd)));
  }

  lemma ShortDoes(r: Ring, rd: int, io1: Io, io2: Io, rule: MinRule, n: nat)
    requires r.WellFormed() && 0 <= rd < MAX_READERS && SendWraps(r, rd)
    requires n == Count(io1, r.Size() - r.pread[rd]) < r.Size() - r.pread[rd]
    ensures Does(r, rd, SendCall(r, rd, io1, io2, rule), n, rule)
  {
    ShortFirst(r, rd, io1, io2, rule, n);
    FrontIsBacklog(r, rd, n);
    NoAdvance(r, rd);
  }

  lemma TwoDo(r: Ring, rd: int, io1: Io, io2: Io, rule: MinRule, n: nat, m: nat)
    requires r.WellFormed() && 0 <= rd < MAX_READERS && SendWraps(r, rd)
    requires n == r.Size() - r.pread[rd] == Count(io1, n) && m == Count(io2, Avail(r, rd) - n)
    ensures Does(r, rd, SendCall(r, rd, io1, io2, rule), n + m, rule)
  {
    var r1 := Advance(r, rd, n);
    TwoPieces(r, rd, io1, io2, rule, n, r1);
    RestMoves(r1, rd, Avail(r, rd) - n, io2, rule);
    FrontsAreBacklog(r, rd, n, r1, m);
    AdvanceTwice(r, rd, n, m);
  }

  /** What it does, also when it returns -1: it hands over as much of the backlog as the writes that it
      makes take. It does nothing if there is no backlog. */
  lemma SendDoes(r: Ring, rd: int, io1: Io, io2: Io, rule: MinRule)
    requires r.WellFormed() && 0 <= rd < MAX_READERS
    ensures var c, len, first := SendCall(r, rd, io1, io2, rule), Avail(r, rd), r.Size() - r.pread[rd];
            if len == 0 then c == Sent(r, 0, [])
            else Does(r, rd, c, if !SendWraps(r, rd) then Count(io2, len)
                                else if Count(io1, first) < first then Count(io1, first)
                                else first + Count(io2, len - first), rule)
  {
    var len, first := Avail(r, rd), r.Size() - r.pread[rd];
    if len == 0 {
    } else if !SendWraps(r, rd) {
      OneDoes(r, rd, io1, io2, rule);
    } else if Count(io1, first) < first {
      ShortDoes(r, rd, io1, io2, rule, Count(io1, first));
    } else {
      TwoDo(r, rd, io1, io2, rule, first, Count(io2, len - first));
    }
  }

  lemma NoAdvance(r: Ring, rd: int)
    requires r.WellFormed() && 0 <= rd < MAX_READERS
    ensures Advance(r, rd, 0) == r
  {
  }

  lemma AdvanceTwice(r: Ring, rd: int, n: nat, m: nat)
    requires r.WellFormed() && 0 <= rd < MAX_READERS
    ensures Advance(Advance(r, rd, n), rd, m) == Advance(r, rd, n + m)
  {
    AddMod(r.pread[rd] + n, m, r.Size());
  }

  /** ringbuffer_readfd, unless it stores past the array: it returns -1 exactly if a read that it makes
      fails, and it makes the second also after a short first. Otherwise it returns how many bytes it
      has stored. */
  lemma FillReturns(r: Ring, in1: Input, in2: Input)
    requires r.WellFormed() && FillCall(r, in1, in2).Filled?
    ensures var c := FillCall(r, in1, in2);
            && (c.ret == -1 <==> (FillWraps(r) && in1.InputFails?) || in2.InputFails?)
            && (c.ret != -1 ==> c.ret == |c.stored|)
  {
  }

  /** What it stores, also when it returns -1: as much of what the reads deliver as they ask for. */
  lemma FillMoves(r: Ring, in1: Input, in2: Input)
    requires r.WellFormed() && FillCall(r, in1, in2).Filled?
    ensures var c, first := FillCall(r, in1, in2), r.Size() - r.pwrite;
            c.stored == if !FillWraps(r) then Taken(in2, Free(r))
                        else if in1.InputFails? then []
                        else Taken(in1, first) + Taken(in2, Free(r) - |Taken(in1, first)|)
  {
    FreeIsLag(r);
  }

  /** The first bytes of what a read delivers. */
  function Taken(input: Input, most: int): seq<Byte> {
    match input
    case InputFails => []
    case Input(bytes) => if |bytes| <= most then bytes else if most < 0 then [] else bytes[..most]
  }

  /** The array from the write index on, round its end: what will be overwritten first comes first. */
  function Oldest(r: Ring): (b: seq<Byte>)
    requires r.WellFormed()
    ensures |b| == r.Size()
  {
    r.data[r.pwrite..] + r.data[..r.pwrite]
  }

  lemma AppendTurns(r: Ring, bytes: seq<Byte>)
    requires r.WellFormed() && r.pwrite + |bytes| <= r.Size()
    ensures Oldest(Append(r, bytes)) == Oldest(r)[|bytes|..] + bytes
  {
    var u := Append(r, bytes);
    if r.pwrite + |bytes| == r.Size() {
      assert u.pwrite == 0 && u.data == r.data[..r.pwrite] + bytes;
    } else {
      assert u.pwrite == r.pwrite + |bytes|;
      assert u.data[u.pwrite..] == r.data[u.pwrite..] && u.data[..u.pwrite] == r.data[..r.pwrite] + bytes;
    }
  }

  lemma AppendIndex(r: Ring, a: seq<Byte>, b: seq<Byte>)
    requires r.WellFormed() && r.pwrite + |a| <= r.Size() && Append(r, a).pwrite + |b| <= r.Size()
    ensures Append(Append(r, a), b).pwrite == Mod(r.pwrite + |a + b|, r.Size())
  {
    IndexAfter(r, a);
    IndexAfter(Append(r, a), b);
    AddMod(r.pwrite + |a|, |b|, r.Size());
    assert |a + b| == |a| + |b|;
  }

  lemma IndexAfter(r: Ring, bytes: seq<Byte>)
    requires r.WellFormed() && r.pwrite + |bytes| <= r.Size()
    ensures Append(r, bytes).pwrite == Mod(r.pwrite + |bytes|, r.Size()) && Append(r, bytes).Size() == r.Size()
  {
  }

  lemma TurnTwice(was: seq<Byte>, a: seq<Byte>, b: seq<Byte>)
    requires |a| + |b| <= |was|
    ensures (was[|a|..] + a)[|b|..] + b == was[|a + b|..] + (a + b)
  {
  }

  /** The writer is as much further as bytes were stored, these have taken the place of the oldest, and
      nothing else has changed. */
  predicate Stores(r: Ring, u: Ring, stored: seq<Byte>)
    requires r.WellFormed()
  {
    && u.WellFormed() && u == r.(data := u.data, pwrite := Mod(r.pwrite + |stored|, r.Size()))
    && |stored| <= r.Size() && Oldest(u) == Oldest(r)[|stored|..] + stored
  }

  /** Where it leaves the buffer. */
  lemma FillLeaves(r: Ring, in1: Input, in2: Input)
    requires r.WellFormed() && FillCall(r, in1, in2).Filled?
    ensures var c := FillCall(r, in1, in2); Stores(r, c.ring, c.stored)
  {
    if !FillWraps(r) {
      FillInOne(r, in1, in2);
      FreeIsLag(r);
      FillRestLeaves(r, Free(r), in2);
    } else if in1.InputFails? {
      FirstFails(r, in1, in2);
    } else {
      BothStore(r, in1, in2);
    }
  }

  lemma FillInOne(r: Ring, in1: Input, in2: Input)
    requires r.WellFormed() && !FillWraps(r)
    ensures FillCall(r, in1, in2) == FillRest(r, Free(r), in2)
  {
    FreeIsLag(r);
  }

  lemma FirstFails(r: Ring, in1: Input, in2: Input)
    requires r.WellFormed() && FillWraps(r) && in1.InputFails?
    ensures FillCall(r, in1, in2) == Filled(r, -1, []) && Stores(r, r, [])
  {
  }

  lemma FillInTwo(r: Ring, in1: Input, in2: Input, split: nat, a: seq<Byte>, len: nat)
    requires r.WellFormed() && len == Free(r) && split == Split(r.pwrite, len, r.Size()) > 0
    requires in1.Input? && a == Arrived(in1, split)
    ensures r.pwrite + |a| <= r.Size() && |a| <= len <= r.Size()
    ensures FillCall(r, in1, in2) == Both(a, FillRest(Append(r, a), len - |a|, in2))
  {
    FreeIsLag(r);
  }

  lemma BothStore(r: Ring, in1: Input, in2: Input)
    requires r.WellFormed() && FillWraps(r) && in1.Input? && FillCall(r, in1, in2).Filled?
    ensures var c := FillCall(r, in1, in2); Stores(r, c.ring, c.stored)
  {
    var len, split := Free(r), Split(r.pwrite, Free(r), r.Size());
    FreeIsLag(r);
    var a := Arrived(in1, split);
    FillInTwo(r, in1, in2, split, a, len);
    SecondStores(r, a, FillRest(Append(r, a), len - |a|, in2), FillCall(r, in1, in2), len - |a|, in2);
  }

  lemma SecondStores(r: Ring, a: seq<Byte>, second: FillResult, c: FillResult, rest: nat, input: Input)
    requires r.WellFormed() && r.pwrite + |a| <= r.Size() && |a| + rest <= r.Size()
    requires second == FillRest(Append(r, a), rest, input) && c == Both(a, second) && c.Filled?
    ensures Stores(r, c.ring, c.stored)
  {
    FirstThenRest(r, a, rest, input);
  }

  lemma FillRestLeaves(r: Ring, rest: nat, input: Input)
    requires r.WellFormed() && FillRest(r, rest, input).Filled?
    ensures var c := FillRest(r, rest, input);
            && c.ring == Append(r, c.stored) && |c.stored| <= rest && r.pwrite + |c.stored| <= r.Size()
            && Stores(r, c.ring, c.stored)
  {
    if input.InputFails? {
      assert Append(r, []) == r;
    } else {
      AppendTurns(r, Arrived(input, rest));
    }
  }

  lemma FirstThenRest(r: Ring, a: seq<Byte>, rest: nat, input: Input)
    requires r.WellFormed() && r.pwrite + |a| <= r.Size() && |a| + rest <= r.Size()
    requires FillRest(Append(r, a), rest, input).Filled?
    ensures var c := FillRest(Append(r, a), rest, input); Stores(r, c.ring, a + c.stored)
  {
    var b := FillRest(Append(r, a), rest, input).stored;
    FillRestLeaves(Append(r, a), rest, input);
    AppendTurns(r, a);
    AppendIndex(r, a, b);
    TurnTwice(Oldest(r), a, b);
  }

  /** The writer is |buf| bytes further, and the array holds the last of what it held and of buf. */
  predicate Written(r: Ring, u: Ring, buf: seq<Byte>)
    requires r.WellFormed()
  {
    && u.WellFormed() && u.Size() == r.Size()
    && u == r.(data := u.data, pwrite := Mod(r.pwrite + |buf|, r.Size()))
    && Oldest(u) == (Oldest(r) + buf)[|buf|..]
  }

  /** ringbuffer_write, unless it stores past the array, returns the length of its buffer, and the array
      holds the last bytes that were there or in the buffer, whatever is free. */
  lemma WriteLeaves(r: Ring, buf: seq<Byte>)
    requires r.WellFormed() && WriteCall(r, buf).Filled?
    ensures var c := WriteCall(r, buf);
            c.ret == |buf| && Written(r, c.ring, buf)
  {
    var split := Split(r.pwrite, |buf|, r.Size());
    var a, b := buf[..split], buf[split..];
    WriteInTwo(r, buf, a, b);
    BothWritten(r, a, b, buf, Append(Append(r, a), b));
  }

  lemma WriteInTwo(r: Ring, buf: seq<Byte>, a: seq<Byte>, b: seq<Byte>)
    requires r.WellFormed() && WriteCall(r, buf).Filled?
    requires var split := Split(r.pwrite, |buf|, r.Size()); a == buf[..split] && b == buf[split..]
    ensures r.pwrite + |a| <= r.Size() && Append(r, a).pwrite + |b| <= r.Size()
    ensures WriteCall(r, buf) == Filled(Append(Append(r, a), b), |buf|, buf)
  {
  }

  lemma BothWritten(r: Ring, a: seq<Byte>, b: seq<Byte>, buf: seq<Byte>, u: Ring)
    requires r.WellFormed() && r.pwrite + |a| <= r.Size() && Append(r, a).pwrite + |b| <= r.Size()
    requires buf == a + b && u == Append(Append(r, a), b)
    ensures Written(r, u, buf)
  {
    AppendTurns(r, a);
    AppendTurns(Append(r, a), b);
    AppendIndex(r, a, b);
    ShiftTwice(Oldest(r), a, b);
  }

  lemma ShiftTwice(was: seq<Byte>, a: seq<Byte>, b: seq<Byte>)
    requires |a| <= |was| && |b| <= |was|
    ensures (was[|a|..] + a)[|b|..] + b == (was + (a + b))[|a + b|..]
  {
  }
}
