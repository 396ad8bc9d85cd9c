/** struct ringbuffer and the functions on it, as an object over a real array. */
module RingBuffer {
  import opened Common
  import opened Modular
  import opened RingState

  class RingBuffer {
    const rule: MinRule
    const data: array<Byte>
    const pread: array<int>
    var minPread: int
    var pwrite: int
    /** The bits of the mask: 1 << i is set exactly when readers[i]. */
    var readers: seq<bool>

    ghost predicate Valid()
      reads this, data, pread
    {
      && pread.Length == MAX_READERS == |readers|
      && View().WellFormed()
    }

    ghost function View(): Ring
      reads this, data, pread
      requires |readers| == MAX_READERS
    {
      Ring(data[..], pread[..], minPread, pwrite, set i | 0 <= i < MAX_READERS && readers[i])
    }

    constructor (size: nat, rule: MinRule)
      requires size > 0
      ensures Valid() && fresh(data) && fresh(pread) && this.rule == rule
      ensures View() == Ring(seq(size, i => 0), seq(MAX_READERS, i => 0), 0, 0, {})
    {
      this.rule := rule;
      data := new Byte[size](i => 0);
      pread := new int[MAX_READERS](i => 0);
      minPread, pwrite, readers := 0, 0, seq(MAX_READERS, i => false);
    }

    method Available(rd: nat) returns (avail: int)
      requires Valid() && rd < MAX_READERS
      ensures avail == Avail(View(), rd)
    {
      avail := pwrite - pread[rd];
      if avail < 0 {
        avail := avail + data.Length;
      }
    }

    method NoReaders() returns (none: bool)
      requires Valid()
      ensures none <==> View().open == {}
    {
      none := true;
      for i := 0 to MAX_READERS
        invariant none <==> forall j | j in View().open :: i <= j
      {
        if readers[i] {
          assert i in View().open;
          none := false;
        }
      }
      if View().open != {} {
        ghost var j := SomeMember(View().open);
      }
    }

    method FreeSpace() returns (free: int)
      requires Valid()
      ensures free == Free(View())
    {
      var none := NoReaders();
      if none {
        free := data.Length;
      } else {
        free := minPread - pwrite;
        if free <= 0 {
          free := free + data.Length;
        }
      }
      free := free - 1;
    }

    method IsEmpty(rd: nat) returns (empty: bool)
      requires Valid() && rd < MAX_READERS
      ensures empty <==> Avail(View(), rd) == 0
    {
      empty := pread[rd] == pwrite;
    }

    /** The scan for the reader that bounds the writer. */
    method RefreshMin()
      requires Valid()
      modifies this`minPread
      ensures Valid() && View() == UpdateMin(old(View()), rule)
    {
      var minAvail, best := -1, -1;
      ghost var r := View();
      for i := 0 to MAX_READERS
        invariant View() == r
        invariant -1 <= best < i && (best, minAvail) == Scan(r, rule, i)
      {
        if readers[i] {
          var avail := Available(i);
          if avail > minAvail {
            best := i;
            if rule.TrackAvail? {
              minAvail := avail;
            }
          }
        }
      }
      if best >= 0 {
        minPread := pread[best];
      }
    }

    method Open() returns (rd: int)
      requires Valid()
      modifies this`readers, pread
      ensures Valid() && (View(), rd) == Opened(old(View()))
    {
      ghost var r := View();
      var i := 0;
      while i < MAX_READERS
        invariant 0 <= i <= MAX_READERS && FirstClosed(r.open, 0) == FirstClosed(r.open, i)
        invariant View() == r && |readers| == MAX_READERS
      {
        if !readers[i] {
          readers := readers[i := true];
          pread[i] := pwrite;
          assert View().open == r.open + {i};
          return i;
        }
        i := i + 1;
      }
      return -1;
    }

    method Close(rd: nat)
      requires Valid()
      modifies this
      ensures Valid()
      ensures View() == if rd >= MAX_READERS then old(View()) else Closed(old(View()), rd, rule)
    {
      if rd >= MAX_READERS {
        return;
      }
      ghost var r := View();
      readers := readers[rd := !readers[rd]];
      assert View().open == if rd in r.open then r.open - {rd} else r.open + {rd};
      RefreshMin();
    }

    method Flush(rd: nat)
      requires Valid() && rd < MAX_READERS
      modifies this`minPread, pread
      ensures Valid() && View() == Flushed(old(View()), rd, rule)
    {
      ghost var r := View();
      pread[rd] := pwrite;
      assert View() == r.(pread := r.pread[rd := r.pwrite]);
      RefreshMin();
    }

    /** One write system call of n bytes from the reader's index, and the move of that index. */
    method Take(rd: nat, n: nat) returns (bytes: seq<Byte>)
      requires Valid() && rd < MAX_READERS && pread[rd] + n <= data.Length
      modifies pread
      ensures Valid() && View() == Advance(old(View()), rd, n) && bytes == Front(old(View()), rd, n)
    {
      bytes := data[pread[rd]..pread[rd] + n];
      ModIsRemainder(pread[rd] + n, data.Length);
      pread[rd] := (pread[rd] + n) % data.Length;
    }

    /** One read system call delivering `bytes` at the write index, and the move of that index. */
    method Put(bytes: seq<Byte>)
      requires Valid() && pwrite + |bytes| <= data.Length
      modifies this`pwrite, data
      ensures Valid() && View() == Append(old(View()), bytes)
    {
      ghost var r := View();
      forall i | 0 <= i < |bytes| {
        data[pwrite + i] := bytes[i];
      }
      assert data[..] == r.data[..pwrite] + bytes + r.data[pwrite + |bytes|..];
      ModIsRemainder(pwrite + |bytes|, data.Length);
      pwrite := (pwrite + |bytes|) % data.Length;
    }

    /** The second (or only) write of ringbuffer_writefd, and its update_min. */
    method WriteRest(rd: nat, rest: nat, io: Io) returns (n: int, sent: seq<Byte>)
      requires Valid() && rd < MAX_READERS && pread[rd] + rest <= data.Length
      modifies this`minPread, pread
      ensures Valid() && Sent(View(), n, sent) == SendRest(old(View()), rd, rest, io, rule)
    {
      n := Moved(io, rest);
      if n == -1 {
        return -1, [];
      }
      sent := Take(rd, n);
      RefreshMin();
    }

    /** What a send whose first write is complete comes to. */
    static lemma SendInTwo(r: Ring, rd: int, io1: Io, io2: Io, rule: MinRule, n: nat, after: SendResult)
      requires r.WellFormed() && 0 <= rd < MAX_READERS && n == Split(r.pread[rd], Avail(r, rd), r.Size()) > 0
      requires Moved(io1, n) == n && after == SendRest(Advance(r, rd, n), rd, Avail(r, rd) - n, io2, rule)
      ensures SendCall(r, rd, io1, io2, rule)
           == Sent(after.ring, if after.ret == -1 then -1 else n + after.ret, Front(r, rd, n) + after.bytes)
    {
    }

    /** Both writes of ringbuffer_writefd, when the backlog wraps round the end of the array. */
    method WriteTwo(rd: nat, split: nat, len: nat, io1: Io, io2: Io) returns (ret: int, sent: seq<Byte>)
      requires Valid() && rd < MAX_READERS && len == Avail(View(), rd)
      requires split == Split(pread[rd], len, data.Length) && split > 0
      modifies this`minPread, pread
      ensures Valid() && Sent(View(), ret, sent) == SendCall(old(View()), rd, io1, io2, rule)
    {
      ghost var r := View();
      var n := Moved(io1, split);
      if n == -1 {
        return -1, [];
      }
      sent := Take(rd, n);
      if n < split {
        RefreshMin();
        return n, sent;
      }
      assert View() == Advance(r, rd, n);
      var m, more := WriteRest(rd, len - n, io2);
      SendInTwo(r, rd, io1, io2, rule, n, Sent(View(), m, more));
      ret, sent := if m == -1 then -1 else n + m, sent + more;
    }

    /** ringbuffer_writefd; io1 and io2 say what its write calls do. */
    method WriteFd(rd: nat, io1: Io, io2: Io) returns (ret: int, sent: seq<Byte>)
      requires Valid() && rd < MAX_READERS
      modifies this`minPread, pread
      ensures Valid() && Sent(View(), ret, sent) == SendCall(old(View()), rd, io1, io2, rule)
    {
      var len := Available(rd);
      if len == 0 {
        return 0, [];
      }
      var split := if pread[rd] + len > data.Length then data.Length - pread[rd] else 0;
      if split > 0 {
        ret, sent := WriteTwo(rd, split, len, io1, io2);
      } else {
        ret, sent := WriteRest(rd, len, io2);
      }
    }

    /** The second read of ringbuffer_readfd. */
    method ReadRest(rest: nat, input: Input) returns (ret: int, ghost stored: seq<Byte>, overrun: bool)
      requires Valid()
      modifies this`pwrite, data
      ensures Valid()
      ensures FillRest(old(View()), rest, input) == if overrun then Overrun(View()) else Filled(View(), ret, stored)
    {
      ret, stored, overrun := -1, [], false;
      if input.Input? {
        var bytes := Arrived(input, rest);
        if pwrite + |bytes| > data.Length {
          overrun := true;
        } else {
          Put(bytes);
          ret, stored := |bytes|, bytes;
        }
      }
    }

    /** Both reads of ringbuffer_readfd, when the free space wraps round the end of the array and the
        first read does not fail. */
    method ReadTwo(bytes: seq<Byte>, len: nat, in2: Input) returns (ret: int, ghost stored: seq<Byte>, overrun: bool)
      requires Valid() && |bytes| <= len && pwrite + |bytes| <= data.Length
      modifies this`pwrite, data
      ensures Valid()
      ensures Both(bytes, FillRest(Append(old(View()), bytes), len - |bytes|, in2))
           == if overrun then Overrun(View()) else Filled(View(), ret, stored)
    {
      Put(bytes);
      var n;
      n, stored, overrun := ReadRest(len - |bytes|, in2);
      ret, stored := if n == -1 then -1 else |bytes| + n, bytes + stored;
    }

    static lemma FillCallIs(r: Ring, in1: Input, in2: Input, len: nat, split: nat)
      requires r.WellFormed() && len == Free(r) && split == Split(r.pwrite, len, r.Size())
      ensures FillCall(r, in1, in2)
           == if split == 0 then FillRest(r, len, in2)
              else if in1.InputFails? then Filled(r, -1, [])
              else Both(Arrived(in1, split), FillRest(Append(r, Arrived(in1, split)), len - |Arrived(in1, split)|, in2))
    {
    }

    /** ringbuffer_readfd; in1 and in2 say what its read calls deliver. */
    method ReadFd(in1: Input, in2: Input) returns (ret: int, ghost stored: seq<Byte>, overrun: bool)
      requires Valid()
      modifies this`pwrite, data
      ensures Valid()
      ensures FillCall(old(View()), in1, in2) == if overrun then Overrun(View()) else Filled(View(), ret, stored)
    {
      var len := FreeSpace();
      var split := if pwrite + len > data.Length then data.Length - pwrite else 0;
      FillCallIs(View(), in1, in2, len, split);
      if split == 0 {
        ret, stored, overrun := ReadRest(len, in2);
      } else if in1.InputFails? {
        ret, stored, overrun := -1, [], false;
      } else {
        ret, stored, overrun := ReadTwo(Arrived(in1, split), len, in2);
      }
    }

    static method CopyTo(buf: array<Byte>, bytes: seq<Byte>)
      requires |bytes| <= buf.Length
      modifies buf
      ensures buf[..|bytes|] == bytes && buf[|bytes|..] == old(buf[|bytes|..])
    {
      forall i | 0 <= i < |bytes| {
        buf[i] := bytes[i];
      }
    }

    /** The two pieces of ringbuffer_read, and its update_min. */
    method TakeTwo(rd: nat, len: nat) returns (bytes: seq<Byte>)
      requires Valid() && rd < MAX_READERS && len <= Avail(View(), rd)
      modifies this`minPread, pread
      ensures Valid() && |bytes| == len && (View(), bytes) == ReadCall(old(View()), rd, len, rule)
    {
      var split := if pread[rd] + len > data.Length then data.Length - pread[rd] else 0;
      bytes := Take(rd, split);
      var rest := Take(rd, len - split);
      RefreshMin();
      bytes := bytes + rest;
    }

    /** ringbuffer_read: buf must have room for len bytes, and they must be available. */
    method Read(rd: nat, buf: array<Byte>, len: nat)
      requires Valid() && rd < MAX_READERS && len <= Avail(View(), rd) && len <= buf.Length && buf != data
      modifies this`minPread, pread, buf
      ensures Valid()
      ensures (View(), buf[..len]) == ReadCall(old(View()), rd, len, rule) && buf[len..] == old(buf[len..])
    {
      var bytes := TakeTwo(rd, len);
      CopyTo(buf, bytes);
    }

    /** ringbuffer_write. */
    method Write(buf: seq<Byte>) returns (ret: nat, overrun: bool)
      requires Valid()
      modifies this`pwrite, data
      ensures Valid()
      ensures WriteCall(old(View()), buf) == if overrun then Overrun(View()) else Filled(View(), ret, buf)
    {
      var split := if pwrite + |buf| > data.Length then data.Length - pwrite else 0;
      Put(buf[..split]);
      overrun := pwrite + |buf| - split > data.Length;
      if !overrun {
        Put(buf[split..]);
      }
      ret := |buf|;
    }
  }
}
