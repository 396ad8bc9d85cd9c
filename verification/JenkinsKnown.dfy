/** Known answers for the parts of the hash, which hold for every word width: they fix its shifts, its
    starting value and the order of the bytes. */
module JenkinsKnown {
  import opened Common
  import opened JenkinsHash
  import opened Words

  lemma {:induction false} XorZero(w: nat)
    ensures BitXor(0, w) == w
  {
    if w == 0 {
    } else {
      XorZero(w / 2);
    }
  }

  lemma {:induction false} XorSame(w: nat)
    ensures BitXor(w, w) == 0
  {
    if w == 0 {
    } else {
      XorSame(w / 2);
    }
  }

  lemma SmallRemainder(n: nat, d: nat)
    requires n < d
    ensures n % d == n
  {
  }

  /** Less than a word of any width. */
  lemma Fits(n: nat)
    requires n < 0x1_0000_0000
    ensures n < LIMIT && n % LIMIT == n
  {
    WordsAreWide();
    SmallRemainder(n, LIMIT);
  }

  /** A line of mix whose difference is zero comes to the shifted word, and one whose difference is that
      word to zero. */
  lemma LineOf(x: Word, y: Word, z: Word, w: Word)
    ensures x == y + z ==> Line(x, y, z, w) == w
    ensures x == y + z + w ==> Line(x, y, z, w) == 0
  {
    XorZero(w);
    XorSame(w);
  }

  /** A line after which nothing is shifted in. */
  lemma LineOfZero(x: Word, y: Word)
    ensures x >= y ==> Line(x, y, 0, 0) == x - y
  {
    XorRight(Sub(Sub(x, y), 0));
  }

  // For each round, states that tell its first two shifts, and its third.

  lemma RoundAStarts(b: Word, c: Word, w: Word)
    requires c < 0x1_0000 && w == c / 0x2000 && b == c + w
    ensures b + c < LIMIT && RoundA(State(b + c, b, c)).a == w && RoundA(State(b + c, b, c)).b == w * 0x100
  {
    Fits(b + c);
    Fits(w * 0x100);
    LineOf(b + c, b, c, w);
    LineOf(b, c, w, w * 0x100);
  }

  lemma RoundAEnds(a: Word, b: Word, c: Word)
    requires c < 0x1_0000 && b == 2 * c && a == b + c + c / 0x2000
    ensures RoundA(State(a, b, c)) == State(0, c, c / 0x2000)
  {
    Fits(0);
    LineOf(a, b, c, c / 0x2000);
    LineOfZero(b, c);
    LineOf(c, 0, c, c / 0x2000);
  }

  lemma RoundBStarts(b: Word, c: Word, w: Word)
    requires c < 0x1_0000 && w == c / 0x1000 && b == c + w
    ensures b + c < LIMIT && RoundB(State(b + c, b, c)).a == w && RoundB(State(b + c, b, c)).b == w * 0x1_0000
  {
    Fits(b + c);
    Fits(w * 0x1_0000);
    LineOf(b + c, b, c, w);
    LineOf(b, c, w, w * 0x1_0000);
  }

  lemma RoundBEnds(a: Word, b: Word, c: Word)
    requires c < 0x1_0000 && b == 2 * c && a == b + c + c / 0x1000
    ensures RoundB(State(a, b, c)) == State(0, c, c / 0x20)
  {
    Fits(0);
    LineOf(a, b, c, c / 0x1000);
    LineOfZero(b, c);
    LineOf(c, 0, c, c / 0x20);
  }

  lemma RoundCStarts(b: Word, c: Word, w: Word)
    requires c < 0x2_0000 && w == c / 8 && b == c + w
    ensures b + c < LIMIT && RoundC(State(b + c, b, c)).a == w && RoundC(State(b + c, b, c)).b == w * 0x400
  {
    Fits(b + c);
    Fits(w * 0x400);
    LineOf(b + c, b, c, w);
    LineOf(b, c, w, w * 0x400);
  }

  lemma RoundCEnds(a: Word, b: Word, c: Word)
    requires c < 0x2_0000 && b == 2 * c && a == b + c + c / 8
    ensures RoundC(State(a, b, c)) == State(0, c, c / 0x8000)
  {
    Fits(0);
    LineOf(a, b, c, c / 8);
    assert Line(a, b, c, c / 8) == 0;
    LineOfZero(b, c);
    assert Line(b, c, 0, 0) == c;
    LineOf(c, 0, c, c / 0x8000);
  }

  /** mix shifts by 13, 8 and 13, then by 12, 16 and 5, then by 3, 10 and 15. */
  lemma KnownRoundA()
    ensures 0x1_2003 < LIMIT
    ensures var s := RoundA(State(0xc003, 0x6003, 0x6000)); s.a == 3 && s.b == 0x300
    ensures RoundA(State(0x1_2003, 0xc000, 0x6000)) == State(0, 0x6000, 3)
  {
    Fits(0x1_2003);
    RoundAStarts(0x6003, 0x6000, 3);
    RoundAEnds(0x1_2003, 0xc000, 0x6000);
  }

  lemma KnownRoundB()
    ensures 0x3_0000 < LIMIT
    ensures var s := RoundB(State(0x6003, 0x3003, 0x3000)); s.a == 3 && s.b == 0x3_0000
    ensures RoundB(State(0x9003, 0x6000, 0x3000)) == State(0, 0x3000, 0x180)
  {
    Fits(0x3_0000);
    RoundBStarts(0x3003, 0x3000, 3);
    RoundBEnds(0x9003, 0x6000, 0x3000);
  }

  lemma KnownRoundC()
    ensures 0x4_b000 < LIMIT
    ensures var s := RoundC(State(0x33, 0x1b, 0x18)); s.a == 3 && s.b == 0xc00
    ensures RoundC(State(0x4_b000, 0x3_0000, 0x1_8000)) == State(0, 0x1_8000, 3)
  {
    Fits(0x4_b000);
    RoundCStarts(0x1b, 0x18, 3);
    RoundCEnds(0x4_b000, 0x3_0000, 0x1_8000);
  }

  lemma {:induction false} XorRight(w: nat)
    ensures BitXor(w, 0) == w
  {
    if w == 0 {
    } else {
      XorRight(w / 2);
    }
  }

  /** Little end first; the last three bytes of a key leave room for its length below them. */
  lemma KnownWords()
    ensures WordAt([1, 2, 3, 4, 5, 6, 7, 8], 0) == 0x04030201 && WordAt([1, 2, 3, 4, 5, 6, 7, 8], 4) == 0x08070605
    ensures WordAt([1, 2], 0) == 0x0201 && TailWord([1, 2, 3, 4, 5, 6, 7, 8, 9, 10, 11]) == 0x0b0a0900
  {
  }

  lemma SmallSum(x: Word, y: Word)
    requires x + y < 0x1_0000_0000
    ensures Add(x, y) == x + y
  {
    WordsAreWide();
  }

  /** A key of one byte, before the mixing that follows. */
  lemma KnownByte(initval: Word, b: Byte, a: Word)
    requires a == 0x9e3779b9 + b
    ensures 1 < LIMIT && Hash([b], initval) == Mix(State(a, 0x9e3779b9, Add(initval, 1))).c
  {
    Fits(0x9e3779b9);
    Fits(1);
    ShortDigest(State(GOLDEN, GOLDEN, initval), [b], b, 1);
  }

  lemma ShortDigest(s: State, key: seq<Byte>, b: Byte, n: Word)
    requires |key| == n <= 1 && b == (if key == [] then 0 else key[0]) && s.a == s.b == 0x9e3779b9
    ensures s.a + b < LIMIT && Digest(s, key, n) == Mix(State(s.a + b, s.b, Add(s.c, n)))
    ensures Add(s.c, 0) == s.c
  {
    Fits(s.a + b);
    ShortWords(key, b);
    ShortFinish(s, key, b, n, State(s.a + b, s.b, Add(s.c, n)));
    NothingAdded(s.c);
  }

  lemma ShortWords(key: seq<Byte>, b: Byte)
    requires |key| <= 1 && b == if key == [] then 0 else key[0]
    ensures WordAt(key, 0) == b && WordAt(key, 4) == 0 && TailWord(key) == 0
  {
  }

  lemma ShortFinish(s: State, key: seq<Byte>, b: Byte, n: Word, t: State)
    requires WordAt(key, 0) == b && WordAt(key, 4) == 0 && TailWord(key) == 0 && s.a == s.b == 0x9e3779b9
    requires t.a == s.a + b && t.b == s.b && t.c == Add(s.c, n)
    ensures Finish(s, key, n) == Mix(t)
  {
    SmallSum(s.a, b);
    NothingAdded(s.b);
    NothingAdded(t.c);
  }

  lemma NothingAdded(x: Word)
    ensures Add(x, 0) == x
  {
  }
}
