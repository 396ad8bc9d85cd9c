/** Case folding and case-insensitive comparison of C strings, in the C locale. */
module CaseFold {
  import opened TreeOrder

  function Lower(c: char): char {
    if 'A' <= c <= 'Z' then c - 'A' + 'a' else c
  }

  function Fold(s: string): (r: string)
    ensures |r| == |s|
  {
    seq(|s|, i requires 0 <= i < |s| => Lower(s[i]))
  }

  /** What folding does to each letter, and to nothing else. */
  lemma LettersFold(i: nat, c: char)
    ensures i < 26 ==> Lower("ABCDEFGHIJKLMNOPQRSTUVWXYZ"[i]) == "abcdefghijklmnopqrstuvwxyz"[i]
    ensures c !in "ABCDEFGHIJKLMNOPQRSTUVWXYZ" ==> Lower(c) == c
  {
    assert "ABCDEFGHIJKLMNOPQRSTUVWXYZ" == seq(26, k requires 0 <= k < 26 => 'A' + k as char);
    assert "abcdefghijklmnopqrstuvwxyz" == seq(26, k requires 0 <= k < 26 => 'a' + k as char);
    if 'A' <= c <= 'Z' {
      assert seq(26, k requires 0 <= k < 26 => 'A' + k as char)[c as int - 'A' as int] == c;
    }
  }

  /** strcasecmp, up to the magnitude of its result. */
  function CaseCompare(a: string, b: string): int
    decreases |a|
  {
    if a == [] then (if b == [] then 0 else -1)
    else if b == [] then 1
    else if Lower(a[0]) != Lower(b[0]) then Lower(a[0]) as int - Lower(b[0]) as int
    else CaseCompare(a[1..], b[1..])
  }

  lemma {:induction false} CompareOpposite(a: string, b: string)
    ensures CaseCompare(a, b) == 0 <==> CaseCompare(b, a) == 0
    ensures CaseCompare(a, b) < 0 <==> CaseCompare(b, a) > 0
    decreases |a|
  {
    if a == [] || b == [] {
    } else {
      CompareOpposite(a[1..], b[1..]);
    }
  }

  lemma {:induction false} CompareTransitive(a: string, b: string, c: string)
    requires CaseCompare(a, b) <= 0 && CaseCompare(b, c) <= 0
    ensures CaseCompare(a, c) <= 0
    decreases |a|
  {
    if a == [] || b == [] || c == [] || Lower(a[0]) != Lower(b[0]) || Lower(b[0]) != Lower(c[0]) {
    } else {
      CompareTransitive(a[1..], b[1..], c[1..]);
    }
  }

  /** strcasecmp meets the comparator contract of the tree. */
  lemma CompareIsComparator()
    ensures Comparator(CaseCompare)
  {
    forall a, b ensures Opposite(CaseCompare, a, b) {
      CompareOpposite(a, b);
    }
    forall a, b, c ensures Transitive(CaseCompare, a, b, c) {
      if CaseCompare(a, b) <= 0 && CaseCompare(b, c) <= 0 {
        CompareTransitive(a, b, c);
      }
    }
  }

  /** Two strings compare equal exactly when they fold to the same string. */
  lemma {:induction false} CompareIsFold(a: string, b: string)
    ensures CaseCompare(a, b) == 0 <==> Fold(a) == Fold(b)
    decreases |a|
  {
    if a == [] || b == [] {
    } else {
      CompareIsFold(a[1..], b[1..]);
      assert Fold(a[1..]) == Fold(a)[1..] && Fold(b[1..]) == Fold(b)[1..];
      assert Fold(a) == [Lower(a[0])] + Fold(a)[1..] && Fold(b) == [Lower(b[0])] + Fold(b)[1..];
    }
  }

  lemma FoldTwice(s: string)
    ensures Fold(Fold(s)) == Fold(s)
  {
  }

  /** The lower-casing loop over a copy of a name. */
  method LowerCopy(name: string) returns (s: string)
    ensures s == Fold(name)
  {
    var copy := new char[|name|](i requires 0 <= i < |name| => name[i]);
    var c := 0;
    while c < copy.Length
      invariant 0 <= c <= copy.Length
      invariant forall i | 0 <= i < copy.Length :: copy[i] == if i < c then Lower(name[i]) else name[i]
    {
      copy[c] := Lower(copy[c]);
      c := c + 1;
    }
    s := copy[..];
  }
}
