/** The hash of jhash.c, with ub4 as a word of 32 bits, which its comment declares, or more. */
module JenkinsHash {
  import opened Common
  import opened Words

  datatype State = State(a: Word, b: Word, c: Word)

  const GOLDEN: Word := (WordsAreWide(); 0x9e3779b9)

  // ------------------------------------------------------------------ mix

  /** One line of mix: x -= y; x -= z; x ^= w. */
  function Line(x: Word, y: Word, z: Word, w: Word): Word {
    Xor(Sub(Sub(x, y), z), w)
  }

  function Undo(x: Word, y: Word, z: Word, w: Word): Word {
    Add(Add(Xor(x, w), z), y)
  }

  lemma UndoLine(x: Word, y: Word, z: Word, w: Word)
    ensures Undo(Line(x, y, z, w), y, z, w) == x
  {
    XorTwice(Sub(Sub(x, y), z), w);
  }

  lemma LineUndo(x: Word, y: Word, z: Word, w: Word)
    ensures Line(Undo(x, y, z, w), y, z, w) == x
  {
    XorTwice(x, w);
  }

  // The nine lines of mix, three at a time; a shift right by n divides by 2^n.

  function RoundA(s: State): State {
    var a := Line(s.a, s.b, s.c, s.c / 0x2000);
    var b := Line(s.b, s.c, a, a * 0x100 % LIMIT);
    var c := Line(s.c, a, b, b / 0x2000);
    State(a, b, c)
  }

  function UndoRoundA(s: State): State {
    var c := Undo(s.c, s.a, s.b, s.b / 0x2000);
    var b := Undo(s.b, c, s.a, s.a * 0x100 % LIMIT);
    var a := Undo(s.a, b, c, c / 0x2000);
    State(a, b, c)
  }

  lemma RoundAInverse(s: State)
    ensures UndoRoundA(RoundA(s)) == s && RoundA(UndoRoundA(s)) == s
  {
    var t, u := RoundA(s), UndoRoundA(s);
    UndoLine(s.a, s.b, s.c, s.c / 0x2000);
    UndoLine(s.b, s.c, t.a, t.a * 0x100 % LIMIT);
    UndoLine(s.c, t.a, t.b, t.b / 0x2000);
    LineUndo(s.c, s.a, s.b, s.b / 0x2000);
    LineUndo(s.b, u.c, s.a, s.a * 0x100 % LIMIT);
    LineUndo(s.a, u.b, u.c, u.c / 0x2000);
  }

  function RoundB(s: State): State {
    var a := Line(s.a, s.b, s.c, s.c / 0x1000);
    var b := Line(s.b, s.c, a, a * 0x10000 % LIMIT);
    var c := Line(s.c, a, b, b / 0x20);
    State(a, b, c)
  }

  function UndoRoundB(s: State): State {
    var c := Undo(s.c, s.a, s.b, s.b / 0x20);
    var b := Undo(s.b, c, s.a, s.a * 0x10000 % LIMIT);
    var a := Undo(s.a, b, c, c / 0x1000);
    State(a, b, c)
  }

  lemma RoundBInverse(s: State)
    ensures UndoRoundB(RoundB(s)) == s && RoundB(UndoRoundB(s)) == s
  {
    var t, u := RoundB(s), UndoRoundB(s);
    UndoLine(s.a, s.b, s.c, s.c / 0x1000);
    UndoLine(s.b, s.c, t.a, t.a * 0x10000 % LIMIT);
    UndoLine(s.c, t.a, t.b, t.b / 0x20);
    LineUndo(s.c, s.a, s.b, s.b / 0x20);
    LineUndo(s.b, u.c, s.a, s.a * 0x10000 % LIMIT);
    LineUndo(s.a, u.b, u.c, u.c / 0x1000);
  }

  function RoundC(s: State): State {
    var a := Line(s.a, s.b, s.c, s.c / 0x8);
    var b := Line(s.b, s.c, a, a * 0x400 % LIMIT);
    var c := Line(s.c, a, b, b / 0x8000);
    State(a, b, c)
  }

  function UndoRoundC(s: State): State {
    var c := Undo(s.c, s.a, s.b, s.b / 0x8000);
    var b := Undo(s.b, c, s.a, s.a * 0x400 % LIMIT);
    var a := Undo(s.a, b, c, c / 0x8);
    State(a, b, c)
  }

  lemma RoundCInverse(s: State)
    ensures UndoRoundC(RoundC(s)) == s && RoundC(UndoRoundC(s)) == s
  {
    var t, u := RoundC(s), UndoRoundC(s);
    UndoLine(s.a, s.b, s.c, s.c / 0x8);
    UndoLine(s.b, s.c, t.a, t.a * 0x400 % LIMIT);
    UndoLine(s.c, t.a, t.b, t.b / 0x8000);
    LineUndo(s.c, s.a, s.b, s.b / 0x8000);
    LineUndo(s.b, u.c, s.a, s.a * 0x400 % LIMIT);
    LineUndo(s.a, u.b, u.c, u.c / 0x8);
  }

  function Mix(s: State): State {
    RoundC(RoundB(RoundA(s)))
  }

  function Unmix(s: State): State {
    UndoRoundA(UndoRoundB(UndoRoundC(s)))
  }

  /** mix is a permutation of the states: "mix 3 32-bit values reversibly". */
  lemma MixInverse(s: State)
    ensures Unmix(Mix(s)) == s && Mix(Unmix(s)) == s
  {
    RoundAInverse(s);
    RoundBInverse(RoundA(s));
    RoundCInverse(RoundB(RoundA(s)));
    RoundCInverse(s);
    RoundBInverse(UndoRoundC(s));
    RoundAInverse(UndoRoundB(UndoRoundC(s)));
  }

  // ------------------------------------------------------------------ absorbing a key

  function ByteAt(k: seq<Byte>, i: nat): Byte {
    if i < |k| then k[i] else 0
  }

  /** Four bytes from index i on, little end first, missing ones zero. */
  function WordAt(k: seq<Byte>, i: nat): Word {
    ByteAt(k, i) + ByteAt(k, i + 1) * 0x100 + ByteAt(k, i + 2) * 0x1_0000 + ByteAt(k, i + 3) * 0x100_0000
  }

  /** The last word of the tail: its low byte is kept for the length. */
  function TailWord(k: seq<Byte>): Word {
    ByteAt(k, 8) * 0x100 + ByteAt(k, 9) * 0x1_0000 + ByteAt(k, 10) * 0x100_0000
  }

  /** One 12-byte block. */
  function Absorb(s: State, block: seq<Byte>): State {
    Mix(State(Add(s.a, WordAt(block, 0)), Add(s.b, WordAt(block, 4)), Add(s.c, WordAt(block, 8))))
  }

  /** The last 11 bytes or fewer. */
  function Finish(s: State, tail: seq<Byte>, length: Word): State {
    Mix(State(Add(s.a, WordAt(tail, 0)), Add(s.b, WordAt(tail, 4)), Add(Add(s.c, length), TailWord(tail))))
  }

  /** Where the rest of a key takes a hash that stands at s; `length` is the whole key's. */
  function Digest(s: State, key: seq<Byte>, length: Word): State
    decreases |key|
  {
    if |key| < 12 then Finish(s, key, length) else Digest(Absorb(s, key[..12]), key[12..], length)
  }

  function Hash(key: seq<Byte>, initval: Word): Word
    requires |key| < LIMIT
  {
    Digest(State(GOLDEN, GOLDEN, initval), key, |key|).c
  }

  // ------------------------------------------------------------------ nothing is lost

  lemma MixInjective(s: State, t: State)
    requires Mix(s) == Mix(t)
    ensures s == t
  {
    MixInverse(s);
    MixInverse(t);
  }

  lemma Digit(a: Byte, x: nat, b: Byte, y: nat)
    requires a + x * 0x100 == b + y * 0x100
    ensures a == b && x == y
  {
    assert x < y ==> x + 1 <= y;
    assert y < x ==> y + 1 <= x;
  }

  lemma Digits(a: Byte, b: Byte, c: Byte, d: Byte, e: Byte, f: Byte, g: Byte, h: Byte)
    requires a + b * 0x100 + c * 0x1_0000 + d * 0x100_0000 == e + f * 0x100 + g * 0x1_0000 + h * 0x100_0000
    ensures a == e && b == f && c == g && d == h
  {
    Digit(a, b + (c + d * 0x100) * 0x100, e, f + (g + h * 0x100) * 0x100);
    Digit(b, c + d * 0x100, f, g + h * 0x100);
    Digit(c, d, g, h);
  }

  lemma WordDetermines(k: seq<Byte>, l: seq<Byte>, i: nat)
    requires WordAt(k, i) == WordAt(l, i)
    ensures ByteAt(k, i) == ByteAt(l, i) && ByteAt(k, i + 1) == ByteAt(l, i + 1)
    ensures ByteAt(k, i + 2) == ByteAt(l, i + 2) && ByteAt(k, i + 3) == ByteAt(l, i + 3)
  {
    Digits(ByteAt(k, i), ByteAt(k, i + 1), ByteAt(k, i + 2), ByteAt(k, i + 3),
           ByteAt(l, i), ByteAt(l, i + 1), ByteAt(l, i + 2), ByteAt(l, i + 3));
  }

  lemma TailDetermines(k: seq<Byte>, l: seq<Byte>)
    requires TailWord(k) == TailWord(l)
    ensures ByteAt(k, 8) == ByteAt(l, 8) && ByteAt(k, 9) == ByteAt(l, 9) && ByteAt(k, 10) == ByteAt(l, 10)
  {
    Digits(0, ByteAt(k, 8), ByteAt(k, 9), ByteAt(k, 10), 0, ByteAt(l, 8), ByteAt(l, 9), ByteAt(l, 10));
  }

  lemma SameBytes(k: seq<Byte>, l: seq<Byte>)
    requires |k| == |l| <= 12
    requires ByteAt(k, 0) == ByteAt(l, 0) && ByteAt(k, 1) == ByteAt(l, 1) && ByteAt(k, 2) == ByteAt(l, 2)
    requires ByteAt(k, 3) == ByteAt(l, 3) && ByteAt(k, 4) == ByteAt(l, 4) && ByteAt(k, 5) == ByteAt(l, 5)
    requires ByteAt(k, 6) == ByteAt(l, 6) && ByteAt(k, 7) == ByteAt(l, 7) && ByteAt(k, 8) == ByteAt(l, 8)
    requires ByteAt(k, 9) == ByteAt(l, 9) && ByteAt(k, 10) == ByteAt(l, 10) && ByteAt(k, 11) == ByteAt(l, 11)
    ensures k == l
  {
    assert forall j | 0 <= j < |k| :: k[j] == ByteAt(k, j) && l[j] == ByteAt(l, j);
  }

  lemma AddCancels(x: Word, y: Word, u: Word, v: Word)
    requires Add(x, u) == Add(y, v)
    ensures x == y <==> u == v
  {
  }

  /** Adding three words and mixing: the words and the old state determine each other. */
  lemma AddMixInjective(s: State, t: State, u: State, v: State)
    requires Mix(State(Add(s.a, u.a), Add(s.b, u.b), Add(s.c, u.c)))
          == Mix(State(Add(t.a, v.a), Add(t.b, v.b), Add(t.c, v.c)))
    ensures s == t <==> u == v
  {
    MixInjective(State(Add(s.a, u.a), Add(s.b, u.b), Add(s.c, u.c)),
                 State(Add(t.a, v.a), Add(t.b, v.b), Add(t.c, v.c)));
    AddCancels(s.a, t.a, u.a, v.a);
    AddCancels(s.b, t.b, u.b, v.b);
    AddCancels(s.c, t.c, u.c, v.c);
  }

  lemma BlockDetermines(k: seq<Byte>, l: seq<Byte>)
    requires |k| == |l| == 12
    requires WordAt(k, 0) == WordAt(l, 0) && WordAt(k, 4) == WordAt(l, 4) && WordAt(k, 8) == WordAt(l, 8)
    ensures k == l
  {
    WordDetermines(k, l, 0);
    WordDetermines(k, l, 4);
    WordDetermines(k, l, 8);
    SameBytes(k, l);
  }

  lemma ShortBlockDetermines(k: seq<Byte>, l: seq<Byte>)
    requires |k| == |l| < 12
    requires WordAt(k, 0) == WordAt(l, 0) && WordAt(k, 4) == WordAt(l, 4) && TailWord(k) == TailWord(l)
    ensures k == l
  {
    WordDetermines(k, l, 0);
    WordDetermines(k, l, 4);
    TailDetermines(k, l);
    SameBytes(k, l);
  }

  /** A block can be recovered from the states before and after it, and the state before it from
      the block and the state after it. */
  lemma AbsorbInjective(s: State, t: State, k: seq<Byte>, l: seq<Byte>)
    requires |k| == |l| == 12 && Absorb(s, k) == Absorb(t, l)
    ensures s == t <==> k == l
  {
    AddMixInjective(s, t, State(WordAt(k, 0), WordAt(k, 4), WordAt(k, 8)),
                    State(WordAt(l, 0), WordAt(l, 4), WordAt(l, 8)));
    if s == t {
      BlockDetermines(k, l);
    }
  }

  lemma FinishInjective(s: State, t: State, k: seq<Byte>, l: seq<Byte>, length: Word)
    requires |k| == |l| < 12 && Finish(s, k, length) == Finish(t, l, length)
    ensures s == t <==> k == l
  {
    AddMixInjective(s.(c := Add(s.c, length)), t.(c := Add(t.c, length)),
                    State(WordAt(k, 0), WordAt(k, 4), TailWord(k)), State(WordAt(l, 0), WordAt(l, 4), TailWord(l)));
    if s == t {
      ShortBlockDetermines(k, l);
    } else if k == l {
      AddCancels(s.c, t.c, length, length);
    }
  }

  /** Different states stay different through any number of equal blocks. */
  lemma {:induction false} DigestInjective(s: State, t: State, key: seq<Byte>, length: Word)
    requires s != t
    ensures Digest(s, key, length) != Digest(t, key, length)
    decreases |key|
  {
    if |key| < 12 {
      if Finish(s, key, length) == Finish(t, key, length) {
        FinishInjective(s, t, key, key, length);
      }
    } else {
      if Absorb(s, key[..12]) == Absorb(t, key[..12]) {
        AbsorbInjective(s, t, key[..12], key[..12]);
      }
      DigestInjective(Absorb(s, key[..12]), Absorb(t, key[..12]), key[12..], length);
    }
  }

  /** Keys of equal length that differ only inside the block with index i (the tail, when i is
      |k| / 12) end in different states, however many blocks there are. */
  lemma {:induction false} OneBlockDiffers(s: State, k: seq<Byte>, l: seq<Byte>, i: nat, length: Word)
    requires |k| == |l| && k != l && 12 * i <= |k|
    requires k[..12 * i] == l[..12 * i]
    requires 12 * (i + 1) <= |k| ==> k[12 * (i + 1)..] == l[12 * (i + 1)..]
    ensures Digest(s, k, length) != Digest(s, l, length)
    decreases i
  {
    if i > 0 {
      assert k[..12] == k[..12 * i][..12] == l[..12];
      assert k[12..][..12 * (i - 1)] == k[..12 * i][12..] && l[12..][..12 * (i - 1)] == l[..12 * i][12..];
      if 12 * (i + 1) <= |k| {
        assert k[12..][12 * i..] == k[12 * (i + 1)..] && l[12..][12 * i..] == l[12 * (i + 1)..];
      }
      assert k == k[..12] + k[12..] && l == l[..12] + l[12..];
      OneBlockDiffers(Absorb(s, k[..12]), k[12..], l[12..], i - 1, length);
    } else if |k| < 12 {
      if Finish(s, k, length) == Finish(s, l, length) {
        FinishInjective(s, s, k, l, length);
      }
    } else {
      assert k == k[..12] + k[12..] && l == l[..12] + l[12..];
      if Absorb(s, k[..12]) == Absorb(s, l[..12]) {
        AbsorbInjective(s, s, k[..12], l[..12]);
      }
      DigestInjective(Absorb(s, k[..12]), Absorb(s, l[..12]), k[12..], length);
    }
  }

  // ------------------------------------------------------------------ the loop

  lemma BlockStep(s: State, k: seq<Byte>, at: nat, length: Word)
    requires at + 12 <= |k|
    ensures Digest(s, k[at..], length) == Digest(Absorb(s, k[at..at + 12]), k[at + 12..], length)
  {
    assert k[at..][12..] == k[at + 12..] && k[at..][..12] == k[at..at + 12];
  }

  /** jenkins_hash. */
  method ComputeHash(k: seq<Byte>, initval: Word) returns (h: Word)
    requires |k| < LIMIT
    ensures h == Hash(k, initval)
  {
    var s := State(GOLDEN, GOLDEN, initval);
    var at := 0;
    ghost var whole := Digest(s, k, |k|);
    assert k[0..] == k;
    while |k| - at >= 12
      invariant 0 <= at <= |k| && Digest(s, k[at..], |k|) == whole
    {
      BlockStep(s, k, at, |k|);
      s := Absorb(s, k[at..at + 12]);
      at := at + 12;
    }
    var final := AddTail(s, k[at..], |k|);
    h := Mix(final).c;
  }

  /** The switch over the last bytes, every case falling through to the next. */
  method AddTail(s: State, tail: seq<Byte>, length: Word) returns (t: State)
    requires |tail| < 12
    ensures Mix(t) == Finish(s, tail, length)
  {
    var c := Add(s.c, length);
    if |tail| >= 11 { c := Add(c, 0x100_0000 * (tail[10] as int)); }
    if |tail| >= 10 { c := Add(c, 0x1_0000 * (tail[9] as int)); }
    if |tail| >= 9 { c := Add(c, 0x100 * (tail[8] as int)); }
    assert c == Add(Add(s.c, length), TailWord(tail));
    var b := AddWord(s.b, tail, 4);
    var a := AddWord(s.a, tail, 0);
    t := State(a, b, c);
  }

  /** Four cases of the switch: bytes i + 3 down to i, as far as they are there. */
  method AddWord(x: Word, tail: seq<Byte>, i: nat) returns (r: Word)
    ensures r == Add(x, WordAt(tail, i))
  {
    r := x;
    if |tail| >= i + 4 { r := Add(r, 0x100_0000 * (tail[i + 3] as int)); }
    if |tail| >= i + 3 { r := Add(r, 0x1_0000 * (tail[i + 2] as int)); }
    if |tail| >= i + 2 { r := Add(r, 0x100 * (tail[i + 1] as int)); }
    if |tail| >= i + 1 { r := Add(r, tail[i]); }
  }
}
