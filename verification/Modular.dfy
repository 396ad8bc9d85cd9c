/** Remainders of natural numbers, by repeated subtraction, and the facts about them that the
    circular buffer's index arithmetic rests on. */
module Modular {

  /** k % s. */
  function Mod(k: nat, s: nat): (r: nat)
    requires s > 0
    ensures r < s
    ensures k < s ==> r == k
    ensures s <= k < 2 * s ==> r == k - s
  {
    if k < s then k else Mod(k - s, s)
  }

  lemma {:induction false} ModIsRemainder(k: nat, s: nat)
    requires s > 0
    ensures Mod(k, s) == k % s
  {
    if k < s {
      SplitUnique(k, s, 0, k);
    } else {
      ModIsRemainder(k - s, s);
      SplitUnique(k, s, (k - s) / s + 1, (k - s) % s);
    }
  }

  /** Any quotient/remainder split of k is the one that division computes. */
  lemma SplitUnique(k: int, s: int, q: int, r: int)
    requires s > 0 && 0 <= r < s && k == q * s + r
    ensures k % s == r
  {
    var d := q - k / s;
    assert d * s == k % s - r;
    assert d >= 1 ==> d * s >= s;
    assert d <= -1 ==> d * s <= -s;
  }

  /** An advance that stays below s moves the remainder by the same amount. */
  lemma {:induction false} Forward(p: nat, n: nat, s: nat)
    requires s > 0 && Mod(p, s) + n < s
    ensures Mod(p + n, s) == Mod(p, s) + n
  {
    if p < s {
    } else {
      Forward(p - s, n, s);
    }
  }

  /** An advance may be reduced before or after it is added. */
  lemma {:induction false} AddMod(p: nat, n: nat, s: nat)
    requires s > 0
    ensures Mod(Mod(p, s) + n, s) == Mod(p + n, s)
  {
    if p < s {
    } else {
      AddMod(p - s, n, s);
    }
  }

  /** Two numbers less than s apart have different remainders. */
  lemma {:induction false} Apart(a: nat, b: nat, s: nat)
    requires 0 < s && a < b < a + s
    ensures Mod(a, s) != Mod(b, s)
  {
    if a < s {
    } else {
      Apart(a - s, b - s, s);
    }
  }

  /** The wrapped difference of two remainders is the true distance, if that is below s. */
  lemma {:induction false} WrappedDistance(a: nat, b: nat, s: nat)
    requires 0 < s && 0 <= b - a < s
    ensures var d := Mod(b, s) - Mod(a, s); b - a == if d < 0 then d + s else d
  {
    if a < s {
    } else {
      WrappedDistance(a - s, b - s, s);
    }
  }
}
