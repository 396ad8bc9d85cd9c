/** Unsigned words of some width of at least 32 bits, as natural numbers: wrap-around, shifts and
    exclusive or. */
module Words {
  /** How many bits a word has beyond 32. Nothing more is known of it: ub4 is unsigned long, which has
      32 bits on some machines and 64 on others. */
  const EXTRA: nat

  const LIMIT: nat := 0x1_0000_0000 * Pow2(EXTRA)

  type Word = x: nat | x < LIMIT witness (WordsAreWide(); 0)

  lemma WordsAreWide()
    ensures LIMIT >= 0x1_0000_0000
  {
  }

  function Remainder(n: nat, d: nat): (r: nat)
    requires d > 0
    ensures r < d && r <= n
  {
    n % d
  }

  /** A number as a word. */
  function Truncate(n: nat): (w: Word)
    ensures w <= n
  {
    WordsAreWide();
    Remainder(n, LIMIT)
  }

  function Add(x: Word, y: Word): Word {
    if x + y < LIMIT then x + y else x + y - LIMIT
  }

  function Sub(x: Word, y: Word): Word {
    if x >= y then x - y else x - y + LIMIT
  }

  /** Exclusive or, bit by bit from the low end. */
  function BitXor(x: nat, y: nat): nat
    decreases x + y
  {
    if x == 0 && y == 0 then 0
    else (if x % 2 == y % 2 then 0 else 1) + 2 * BitXor(x / 2, y / 2)
  }

  function Pow2(n: nat): (p: nat)
    ensures p >= 1
  {
    if n == 0 then 1 else 2 * Pow2(n - 1)
  }

  lemma {:induction false} XorBelow(x: nat, y: nat, n: nat)
    requires x < Pow2(n) && y < Pow2(n)
    ensures BitXor(x, y) < Pow2(n)
  {
    if n == 0 {
    } else {
      XorBelow(x / 2, y / 2, n - 1);
    }
  }

  lemma {:induction false} XorTwice(x: nat, y: nat)
    ensures BitXor(BitXor(x, y), y) == x
    decreases x + y
  {
    if x == 0 && y == 0 {
    } else {
      var bit, rest := if x % 2 == y % 2 then 0 else 1, BitXor(x / 2, y / 2);
      assert BitXor(x, y) == bit + 2 * rest;
      XorTwice(x / 2, y / 2);
    }
  }

  lemma {:induction false} Pow2Add(m: nat, n: nat)
    ensures Pow2(m + n) == Pow2(m) * Pow2(n)
    decreases m
  {
    if m == 0 {
    } else {
      Pow2Add(m - 1, n);
      assert 2 * (Pow2(m - 1) * Pow2(n)) == 2 * Pow2(m - 1) * Pow2(n);
    }
  }

  lemma Pow2Of32()
    ensures Pow2(32) == 0x1_0000_0000
  {
    assert Pow2(8) == 256 && Pow2(16) == 65536 && Pow2(24) == 16777216;
  }

  lemma LimitIsPower()
    ensures Pow2(32 + EXTRA) == LIMIT
  {
    Pow2Of32();
    Pow2Add(32, EXTRA);
  }

  function Xor(x: Word, y: Word): Word {
    LimitIsPower();
    XorBelow(x, y, 32 + EXTRA);
    BitXor(x, y)
  }
}
