/** Ways of writing text so that the scanner reads it back. */
module CopaText {
  import opened Common
  import opened CopaScan

  /** One way to write one character: itself, a backslash and a character, a backslash and one to four
      octal digits, or \x and up to two hex digits; and any of these after a line continuation. */
  datatype Piece =
    | Plain(c: char)
    | Escaped(c: char)
    | OctalDigits(digits: string)
    | HexDigits(digits: string)
    | Joined(eol: char, piece: Piece)

  function Value(p: Piece): char {
    match p
    case Plain(c) => c
    case Escaped(c) => Named(c)
    case OctalDigits(digits) => if AllOctal(digits) then CharOf(OctalNumber(digits)) else NUL
    case HexDigits(digits) => if AllHex(digits) then CharOf(HexNumber(digits)) else NUL
    case Joined(_, q) => Value(q)
  }

  /** What a backslash makes of a character. */
  function Named(c: char): char {
    match c
    case 'a' => '\U{07}'
    case 'b' => '\U{08}'
    case 'f' => '\U{0C}'
    case 'n' => '\n'
    case 'r' => '\r'
    case 't' => '\t'
    case 'v' => '\U{0B}'
    case _ => c
  }

  predicate AllOctal(digits: string) {
    forall i | 0 <= i < |digits| :: Octal(digits[i]) >= 0
  }

  predicate AllHex(digits: string) {
    forall i | 0 <= i < |digits| :: Hex(digits[i]) >= 0
  }

  function OctalNumber(digits: string): nat
    requires AllOctal(digits)
  {
    if digits == [] then 0 else 8 * OctalNumber(digits[..|digits| - 1]) + Octal(digits[|digits| - 1])
  }

  function HexNumber(digits: string): nat
    requires AllHex(digits)
  {
    if digits == [] then 0 else 16 * HexNumber(digits[..|digits| - 1]) + Hex(digits[|digits| - 1])
  }

  predicate Legal(p: Piece) {
    && Value(p) != NUL && Value(p) != EOF
    && match p
       case Plain(c) => c != BACKSLASH
       case Escaped(c) => c != 'x' && c != '\n' && c != '\r' && Octal(c) < 0
       case OctalDigits(digits) => 1 <= |digits| <= 4
       case HexDigits(digits) => |digits| <= 2
       case Joined(eol, q) => (eol == '\n' || eol == '\r') && Legal(q)
  }

  function Written(p: Piece): (s: string)
    ensures s != []
  {
    match p
    case Plain(c) => [c]
    case Escaped(c) => [BACKSLASH] + [c]
    case OctalDigits(digits) => [BACKSLASH] + digits
    case HexDigits(digits) => [BACKSLASH] + (['x'] + digits)
    case Joined(eol, q) => [BACKSLASH] + ([eol] + Written(q))
  }

  /** A numeric escape with fewer digits than it may have: only the next character ends it. */
  predicate Short(p: Piece) {
    match p
    case OctalDigits(digits) => |digits| < 4
    case HexDigits(digits) => |digits| < 2
    case Joined(_, q) => Short(q)
    case _ => false
  }

  /** The character would be taken for one more digit. */
  predicate Continues(p: Piece, z: char) {
    match p
    case OctalDigits(_) => Octal(z) >= 0
    case HexDigits(_) => Hex(z) >= 0
    case Joined(_, q) => Continues(q, z)
    case _ => false
  }

  /** The piece ends where it should, in front of this text. */
  predicate Ends(p: Piece, rest: string) {
    Short(p) ==> rest != [] && !Continues(p, rest[0])
  }

  function Text(ps: seq<Piece>): string {
    if ps == [] then [] else Written(ps[0]) + Text(ps[1..])
  }

  function Values(ps: seq<Piece>): (s: string)
    ensures |s| == |ps|
  {
    if ps == [] then [] else [Value(ps[0])] + Values(ps[1..])
  }

  predicate AllLegal(ps: seq<Piece>) {
    forall i | 0 <= i < |ps| :: Legal(ps[i]) && (i + 1 < |ps| ==> Ends(ps[i], Written(ps[i + 1])))
  }

  /** Pieces in front of a text, the last one ending where it should. */
  predicate Followed(ps: seq<Piece>, rest: string) {
    AllLegal(ps) && (ps != [] ==> Ends(ps[|ps| - 1], rest))
  }

  /** A character that ends every numeric escape. */
  predicate EndsEscapes(z: char) {
    Legal(Plain(z)) && Octal(z) < 0 && Hex(z) < 0
  }

  lemma {:induction false} StopEnds(p: Piece, z: char, rest: string)
    requires EndsEscapes(z)
    ensures Ends(p, [z] + rest)
  {
    if p.Joined? {
      StopEnds(p.piece, z, rest);
    }
  }

  lemma LegalCons(p: Piece, ps: seq<Piece>)
    ensures AllLegal([p] + ps) <==> Legal(p) && AllLegal(ps) && (ps != [] ==> Ends(p, Written(ps[0])))
  {
    var all := [p] + ps;
    assert forall i | 0 <= i < |ps| :: all[i + 1] == ps[i];
    if AllLegal(all) {
      assert Legal(all[0]);
      forall i | 0 <= i < |ps| ensures Legal(ps[i]) && (i + 1 < |ps| ==> Ends(ps[i], Written(ps[i + 1]))) {
        assert Legal(all[i + 1]) && (i + 2 < |all| ==> Ends(all[i + 1], Written(all[i + 2])));
      }
    }
  }

  lemma {:induction false} EndsThere(p: Piece, a: string, b: string)
    requires a != [] && b != [] && a[0] == b[0]
    ensures Ends(p, a) <==> Ends(p, b)
  {
  }

  lemma FollowedTail(ps: seq<Piece>, rest: string)
    requires ps != [] && Followed(ps, rest)
    ensures Legal(ps[0]) && Followed(ps[1..], rest) && Ends(ps[0], Text(ps[1..]) + rest)
  {
    assert ps == [ps[0]] + ps[1..];
    LegalCons(ps[0], ps[1..]);
    if |ps| > 1 {
      assert ps[1..][0] == ps[1];
      EndsThere(ps[0], Written(ps[1]), Text(ps[1..]) + rest);
    } else {
      assert Text(ps[1..]) + rest == rest;
    }
  }

  /** The plain spelling of a string: only backslashes are escaped. */
  function Spell(s: string): (ps: seq<Piece>)
    ensures Values(ps) == s
    ensures forall i | 0 <= i < |ps| :: !Short(ps[i])
  {
    if s == [] then []
    else [if s[0] == BACKSLASH then Escaped(BACKSLASH) else Plain(s[0])] + Spell(s[1..])
  }

  /** What the scanner holds between two characters: a stale number, and whether it has taken the next
      raw character already, to see that a numeric escape has ended. */
  datatype Held = Held(number: nat, ahead: bool)

  /** The scanner in front of a text. A character that has been taken is pushed back; of a backslash
      it is remembered that it escapes what follows. */
  function At(rest: string, h: Held): Scan {
    if !h.ahead || rest == [] then Scan(rest, Mode(NUL, false, 0, 0, h.number), true)
    else if rest[0] == BACKSLASH then Scan(rest[1..], Mode(NUL, true, 0, 0, h.number), true)
    else Scan(rest[1..], Mode(rest[0], false, 0, 0, h.number), true)
  }

  /** From s, the scanner delivers cs and then stands at t. */
  predicate Yields(s: Scan, cs: string, t: Scan)
    decreases |cs|
  {
    if cs == [] then s == t
    else Next(s).1 == cs[0] && cs[0] != EOF && Yields(Next(s).0, cs[1..], t)
  }

  lemma {:induction false} YieldsThen(s: Scan, a: string, m: Scan, b: string, t: Scan)
    requires Yields(s, a, m) && Yields(m, b, t)
    ensures Yields(s, a + b, t)
    decreases |a|
  {
    if a == [] {
      assert a + b == b;
    } else {
      YieldsThen(Next(s).0, a[1..], m, b, t);
      assert (a + b)[1..] == a[1..] + b;
    }
  }

  /** A pushed-back character comes first, if it has not taken the place of another. */
  lemma YieldsPushed(s: Scan, c: char, cs: string, t: Scan)
    requires s.mode.pushback == NUL && c != NUL && c != EOF && Yields(s, cs, t)
    ensures Yields(PushBack(s, c), [c] + cs, t)
  {
    assert ([c] + cs)[1..] == cs;
    assert Next(PushBack(s, c)) == (s, c);
  }

  lemma YieldsCons(s: Scan, c: char, m: Scan, cs: string, t: Scan)
    requires Next(s) == (m, c) && c != EOF && Yields(m, cs, t)
    ensures Yields(s, [c] + cs, t)
  {
    assert ([c] + cs)[1..] == cs;
  }

  lemma YieldsOne(s: Scan, c: char, t: Scan)
    requires Next(s) == (t, c) && c != EOF
    ensures Yields(s, [c], t)
  {
    assert [c][1..] == [];
  }

  /** One raw character that delivers nothing yet. */
  lemma PullSilent(s: Scan, raw: char, rest: string, m: Mode)
    requires s.rest == [raw] + rest && Feed(s.mode, raw) == (m, NUL)
    ensures Pull(s) == Pull(Scan(rest, m, s.active))
  {
    assert s.rest[1..] == rest;
  }

  /** One raw character that delivers c. */
  lemma PullLast(s: Scan, raw: char, rest: string, m: Mode, c: char)
    requires s.rest == [raw] + rest && Feed(s.mode, raw) == (m, c) && c != NUL
    ensures Pull(s) == (Scan(rest, m, s.active), c)
  {
    assert s.rest[1..] == rest;
  }

  lemma PlainYields(c: char, rest: string, h: Held)
    requires Legal(Plain(c))
    ensures Next(At([c] + rest, h)) == (At(rest, Held(h.number, false)), c)
  {
    assert ([c] + rest)[1..] == rest;
    if !h.ahead {
      PullLast(At([c] + rest, h), c, rest, Mode(NUL, false, 0, 0, h.number), c);
    }
  }

  /** Behind a backslash the scanner is in the same state whether it had been taken or not. */
  function Behind(rest: string, n: nat): Scan {
    Scan(rest, Mode(NUL, true, 0, 0, n), true)
  }

  lemma BackslashTaken(rest: string, h: Held)
    ensures Next(At([BACKSLASH] + rest, h)) == Pull(Behind(rest, h.number))
  {
    assert ([BACKSLASH] + rest)[1..] == rest;
    if !h.ahead {
      PullSilent(At([BACKSLASH] + rest, h), BACKSLASH, rest, Mode(NUL, true, 0, 0, h.number));
    }
  }

  lemma EscapedYields(c: char, rest: string, h: Held)
    requires Legal(Escaped(c))
    ensures Next(At(Written(Escaped(c)) + rest, h)) == (At(rest, Held(h.number, false)), Named(c))
  {
    assert Written(Escaped(c)) + rest == [BACKSLASH] + ([c] + rest);
    BackslashTaken([c] + rest, h);
    PullLast(Behind([c] + rest, h.number), c, rest, Mode(NUL, false, 0, 0, h.number), Named(c));
  }

  // ------------------------------------------------------------------ numeric escapes

  /** The char numchar after more octal digits. */
  function OctalFrom(n: nat, digits: string): (v: nat)
    requires AllOctal(digits)
    decreases |digits|
  {
    if digits == [] then n else OctalFrom((n * 8 + Octal(digits[0])) % 256, digits[1..])
  }

  function HexFrom(n: nat, digits: string): (v: nat)
    requires AllHex(digits)
    decreases |digits|
  {
    if digits == [] then n else HexFrom((n * 16 + Hex(digits[0])) % 256, digits[1..])
  }

  lemma ShiftMod(n: nat, f: nat, k: nat)
    ensures (n % 256 * f + k) % 256 == (n * f + k) % 256
  {
    var q := n / 256;
    assert n == 256 * q + n % 256;
    assert n * f == 256 * (q * f) + n % 256 * f;
    assert n * f + k == 256 * (q * f) + (n % 256 * f + k);
    Wraps(q * f, n % 256 * f + k);
  }

  lemma Wraps(q: nat, r: nat)
    ensures (256 * q + r) % 256 == r % 256
  {
  }

  lemma {:induction false} OctalFromSnoc(n: nat, digits: string)
    requires AllOctal(digits) && digits != []
    ensures var k := |digits| - 1;
            OctalFrom(n, digits) == (OctalFrom(n, digits[..k]) * 8 + Octal(digits[k])) % 256
    decreases |digits|
  {
    if |digits| == 1 {
      assert digits[1..] == [] && digits[..0] == [];
    } else {
      var k, rest := |digits| - 1, digits[1..];
      assert rest[..k - 1] == digits[..k][1..];
      OctalFromSnoc((n * 8 + Octal(digits[0])) % 256, rest);
    }
  }

  lemma {:induction false} HexFromSnoc(n: nat, digits: string)
    requires AllHex(digits) && digits != []
    ensures var k := |digits| - 1;
            HexFrom(n, digits) == (HexFrom(n, digits[..k]) * 16 + Hex(digits[k])) % 256
    decreases |digits|
  {
    if |digits| == 1 {
      assert digits[1..] == [] && digits[..0] == [];
    } else {
      var k, rest := |digits| - 1, digits[1..];
      assert rest[..k - 1] == digits[..k][1..];
      HexFromSnoc((n * 16 + Hex(digits[0])) % 256, rest);
    }
  }

  /** numchar is the number that the digits spell, in one byte. */
  lemma {:induction false} OctalIsNumber(digits: string)
    requires AllOctal(digits)
    ensures OctalFrom(0, digits) == OctalNumber(digits) % 256
  {
    if digits == [] {
    } else {
      var k := |digits| - 1;
      OctalFromSnoc(0, digits);
      OctalIsNumber(digits[..k]);
      ShiftMod(OctalNumber(digits[..k]), 8, Octal(digits[k]));
    }
  }

  lemma {:induction false} HexIsNumber(digits: string)
    requires AllHex(digits)
    ensures HexFrom(0, digits) == HexNumber(digits) % 256
  {
    if digits == [] {
    } else {
      var k := |digits| - 1;
      HexFromSnoc(0, digits);
      HexIsNumber(digits[..k]);
      ShiftMod(HexNumber(digits[..k]), 16, Hex(digits[k]));
    }
  }

  /** The digits of an octal escape of which k more may come. One more ends it, or, if there are
      fewer, the character after them, which is kept. */
  lemma {:induction false} OctalPull(k: nat, n: nat, digits: string, rest: string)
    requires 0 < k && |digits| <= k && AllOctal(digits) && CharOf(OctalFrom(n, digits)) != NUL
    requires |digits| < k ==> rest != [] && Octal(rest[0]) < 0
    ensures var v := OctalFrom(n, digits);
            Pull(Scan(digits + rest, Mode(NUL, false, k, 0, n), true)) == (At(rest, Held(v, |digits| < k)), CharOf(v))
    decreases k
  {
    var s := Scan(digits + rest, Mode(NUL, false, k, 0, n), true);
    if digits == [] {
      assert digits + rest == rest;
    } else {
      var v, more := (n * 8 + Octal(digits[0])) % 256, digits[1..] + rest;
      assert digits + rest == [digits[0]] + more;
      if k == 1 {
        assert more == rest;
        PullLast(s, digits[0], more, Mode(NUL, false, 0, 0, v), CharOf(v));
      } else {
        PullSilent(s, digits[0], more, Mode(NUL, false, k - 1, 0, v));
        OctalPull(k - 1, v, digits[1..], rest);
      }
    }
  }

  lemma {:induction false} HexPull(k: nat, n: nat, digits: string, rest: string)
    requires 0 < k && |digits| <= k && AllHex(digits) && CharOf(HexFrom(n, digits)) != NUL
    requires |digits| < k ==> rest != [] && Hex(rest[0]) < 0
    ensures var v := HexFrom(n, digits);
            Pull(Scan(digits + rest, Mode(NUL, false, 0, k, n), true)) == (At(rest, Held(v, |digits| < k)), CharOf(v))
    decreases k
  {
    var s := Scan(digits + rest, Mode(NUL, false, 0, k, n), true);
    if digits == [] {
      assert digits + rest == rest;
    } else {
      var v, more := (n * 16 + Hex(digits[0])) % 256, digits[1..] + rest;
      assert digits + rest == [digits[0]] + more;
      if k == 1 {
        assert more == rest;
        PullLast(s, digits[0], more, Mode(NUL, false, 0, 0, v), CharOf(v));
      } else {
        PullSilent(s, digits[0], more, Mode(NUL, false, 0, k - 1, v));
        HexPull(k - 1, v, digits[1..], rest);
      }
    }
  }

  /** The first digit after a backslash. */
  lemma FirstOctal(d: char, more: string, n: nat)
    requires Octal(d) >= 0
    ensures Pull(Behind([d] + more, n)) == Pull(Scan(more, Mode(NUL, false, 3, 0, Octal(d)), true))
  {
    PullSilent(Behind([d] + more, n), d, more, Mode(NUL, false, 3, 0, Octal(d)));
  }

  lemma SmallMod(x: nat)
    requires x < 256
    ensures x % 256 == x
  {
  }

  lemma SameChar(x: nat)
    ensures CharOf(x % 256) == CharOf(x)
  {
  }

  lemma OctalIs(digits: string) returns (v: nat)
    requires Legal(OctalDigits(digits))
    ensures v == OctalFrom(Octal(digits[0]), digits[1..]) && CharOf(v) == Value(OctalDigits(digits))
  {
    v := OctalFrom(Octal(digits[0]), digits[1..]);
    SmallMod(Octal(digits[0]));
    OctalIsNumber(digits);
    SameChar(OctalNumber(digits));
  }

  lemma OctalYields(digits: string, rest: string, h: Held) returns (h': Held)
    requires Legal(OctalDigits(digits)) && Ends(OctalDigits(digits), rest)
    ensures Next(At(Written(OctalDigits(digits)) + rest, h)) == (At(rest, h'), Value(OctalDigits(digits)))
    ensures h'.ahead == Short(OctalDigits(digits))
  {
    var d, more := digits[0], digits[1..];
    var v := OctalIs(digits);
    h' := Held(v, |digits| < 4);
    assert Written(OctalDigits(digits)) + rest == [BACKSLASH] + ([d] + (more + rest));
    BackslashTaken([d] + (more + rest), h);
    FirstOctal(d, more + rest, h.number);
    OctalPull(3, Octal(d), more, rest);
  }

  lemma HexYields(digits: string, rest: string, h: Held) returns (h': Held)
    requires Legal(HexDigits(digits)) && Ends(HexDigits(digits), rest)
    ensures Next(At(Written(HexDigits(digits)) + rest, h)) == (At(rest, h'), Value(HexDigits(digits)))
    ensures h'.ahead == Short(HexDigits(digits))
  {
    h' := Held(HexFrom(0, digits), |digits| < 2);
    assert Written(HexDigits(digits)) + rest == [BACKSLASH] + (['x'] + (digits + rest));
    HexIsNumber(digits);
    SameChar(HexNumber(digits));
    BackslashTaken(['x'] + (digits + rest), h);
    PullSilent(Behind(['x'] + (digits + rest), h.number), 'x', digits + rest, Mode(NUL, false, 0, 2, 0));
    HexPull(2, 0, digits, rest);
  }

  /** A continuation delivers nothing. */
  lemma ContinuationYields(eol: char, more: string, h: Held)
    requires eol == '\n' || eol == '\r'
    ensures Next(At([BACKSLASH] + ([eol] + more), h)) == Next(At(more, Held(h.number, false)))
  {
    BackslashTaken([eol] + more, h);
    PullSilent(Behind([eol] + more, h.number), eol, more, Mode(NUL, false, 0, 0, h.number));
  }

  /** One written character is one character delivered, and the scanner is in front of what follows. */
  lemma {:induction false} PieceYields(p: Piece, rest: string, h: Held) returns (h': Held)
    requires Legal(p) && Ends(p, rest)
    ensures Next(At(Written(p) + rest, h)) == (At(rest, h'), Value(p)) && h'.ahead == Short(p)
    decreases p
  {
    h' := Held(h.number, false);
    match p {
      case Plain(c) => PlainYields(c, rest, h);
      case Escaped(c) => EscapedYields(c, rest, h);
      case OctalDigits(digits) => h' := OctalYields(digits, rest, h);
      case HexDigits(digits) => h' := HexYields(digits, rest, h);
      case Joined(eol, q) =>
        assert Written(p) + rest == [BACKSLASH] + ([eol] + (Written(q) + rest));
        ContinuationYields(eol, Written(q) + rest, h);
        h' := PieceYields(q, rest, Held(h.number, false));
    }
  }

  lemma TextCons(ps: seq<Piece>, rest: string)
    requires ps != []
    ensures Text(ps) + rest == Written(ps[0]) + (Text(ps[1..]) + rest)
    ensures Values(ps) == [Value(ps[0])] + Values(ps[1..])
  {
  }

  /** Any text written piece by piece decodes to what was meant, whatever follows it. */
  lemma {:induction false} TextYields(ps: seq<Piece>, rest: string, h: Held) returns (h': Held)
    requires Followed(ps, rest)
    ensures Yields(At(Text(ps) + rest, h), Values(ps), At(rest, h'))
    ensures if ps == [] then h' == h else h'.ahead == Short(ps[|ps| - 1])
    decreases |ps|
  {
    if ps == [] {
      assert Text(ps) + rest == rest;
      h' := h;
    } else {
      var tail := Text(ps[1..]) + rest;
      TextCons(ps, rest);
      FollowedTail(ps, rest);
      var g := PieceYields(ps[0], tail, h);
      h' := TextYields(ps[1..], rest, g);
      YieldsCons(At(Written(ps[0]) + tail, h), Value(ps[0]), At(tail, g), Values(ps[1..]), At(rest, h'));
    }
  }

  // ------------------------------------------------------------------ where an escape goes wrong

  /** An escape of value 0, ended by another character, delivers nothing; that character is kept, and
      the one after it comes out before it. */
  lemma NulEscapeSwaps(z: char, w: char, rest: string, h: Held)
    requires EndsEscapes(z) && Legal(Plain(w))
    ensures Yields(At([BACKSLASH] + (['0'] + ([z] + ([w] + rest))), h), [w] + [z], At(rest, Held(0, false)))
  {
    var more := [z] + ([w] + rest);
    BackslashTaken(['0'] + more, h);
    FirstOctal('0', more, h.number);
    PullSilent(Scan(more, Mode(NUL, false, 3, 0, 0), true), z, [w] + rest, Mode(z, false, 0, 0, 0));
    PullLast(Scan([w] + rest, Mode(z, false, 0, 0, 0), true), w, rest, Mode(z, false, 0, 0, 0), w);
    YieldsOne(PushBack(At(rest, Held(0, false)), z), z, At(rest, Held(0, false)));
    assert ([w] + [z])[1..] == [z];
  }

  /** A look ahead at a short escape keeps the character that ended it exactly if that is a backslash.
      Any other is pushed out by the one that is looked at. */
  lemma PeekKeepsExactly(p: Piece, z: char, rest: string, h: Held) returns (h': Held)
    requires Legal(p) && Short(p) && !Continues(p, z) && z != NUL
    ensures Peek(At(Written(p) + ([z] + rest), h)).1 == Value(p)
    ensures Next(Peek(At(Written(p) + ([z] + rest), h)).0)
         == (if z == BACKSLASH then At([z] + rest, h') else At(rest, Held(h'.number, false)), Value(p))
  {
    h' := PieceYields(p, [z] + rest, h);
    assert ([z] + rest)[1..] == rest;
  }

  /** The characters of a whole text, to its end. */
  function Decoded(s: Scan): string
    decreases s.Weight()
  {
    var (t, c) := Next(s);
    if c == EOF then [] else [c] + Decoded(t)
  }

  lemma {:induction false} YieldsDecoded(s: Scan, cs: string, t: Scan)
    requires Yields(s, cs, t)
    ensures Decoded(s) == cs + Decoded(t)
    decreases |cs|
  {
    if cs == [] {
    } else {
      YieldsDecoded(Next(s).0, cs[1..], t);
    }
  }

  lemma {:induction false} OctalLeft(k: nat, n: nat, digits: string)
    requires |digits| < k && AllOctal(digits)
    ensures Pull(Scan(digits, Mode(NUL, false, k, 0, n), true)).1 == EOF
    decreases k
  {
    if digits == [] {
    } else {
      var v := (n * 8 + Octal(digits[0])) % 256;
      PullSilent(Scan(digits, Mode(NUL, false, k, 0, n), true), digits[0], digits[1..], Mode(NUL, false, k - 1, 0, v));
      OctalLeft(k - 1, v, digits[1..]);
    }
  }

  lemma {:induction false} HexLeft(k: nat, n: nat, digits: string)
    requires |digits| < k && AllHex(digits)
    ensures Pull(Scan(digits, Mode(NUL, false, 0, k, n), true)).1 == EOF
    decreases k
  {
    if digits == [] {
    } else {
      var v := (n * 16 + Hex(digits[0])) % 256;
      PullSilent(Scan(digits, Mode(NUL, false, 0, k, n), true), digits[0], digits[1..], Mode(NUL, false, 0, k - 1, v));
      HexLeft(k - 1, v, digits[1..]);
    }
  }

  /** An escape that nothing ends is lost. */
  lemma {:induction false} UnendedIsLost(p: Piece, h: Held)
    requires Legal(p) && Short(p)
    ensures Next(At(Written(p), h)).1 == EOF
    decreases p
  {
    match p {
      case OctalDigits(digits) =>
        var d, more := digits[0], digits[1..];
        assert Written(p) == [BACKSLASH] + ([d] + more);
        BackslashTaken([d] + more, h);
        FirstOctal(d, more, h.number);
        OctalLeft(3, Octal(d), more);
      case HexDigits(digits) =>
        BackslashTaken(['x'] + digits, h);
        PullSilent(Behind(['x'] + digits, h.number), 'x', digits, Mode(NUL, false, 0, 2, 0));
        HexLeft(2, 0, digits);
      case Joined(eol, q) =>
        ContinuationYields(eol, Written(q), h);
        UnendedIsLost(q, Held(h.number, false));
    }
  }

  lemma {:induction false} TextSnoc(ps: seq<Piece>, p: Piece)
    ensures Text(ps + [p]) == Text(ps) + Written(p) && Values(ps + [p]) == Values(ps) + [Value(p)]
  {
    if ps == [] {
      assert [] + [p] == [p] && [p][1..] == [];
    } else {
      assert (ps + [p])[1..] == ps[1..] + [p];
      TextSnoc(ps[1..], p);
      Assoc(Written(ps[0]), Text(ps[1..]), Written(p));
    }
  }

  /** What comes before an escape that nothing ends is all that is decoded. */
  lemma UnendedDecodes(ps: seq<Piece>, p: Piece, all: seq<Piece>)
    requires all == ps + [p] && AllLegal(all) && Short(p)
    ensures Decoded(Scan(Text(all), FRESH, true)) == Values(ps) && |Values(ps)| < |Values(all)|
  {
    assert Legal(all[|ps|]);
    assert Followed(ps, Written(p)) by {
      assert forall i | 0 <= i < |ps| :: all[i] == ps[i];
      forall i | 0 <= i < |ps| ensures Legal(ps[i]) && (i + 1 < |ps| ==> Ends(ps[i], Written(ps[i + 1]))) {
        assert Legal(all[i]) && Ends(all[i], Written(all[i + 1]));
      }
      assert ps != [] ==> Ends(all[|ps| - 1], Written(all[|ps|]));
    }
    TextSnoc(ps, p);
    var h := TextYields(ps, Written(p), Held(0, false));
    YieldsDecoded(At(Text(ps) + Written(p), Held(0, false)), Values(ps), At(Written(p), h));
    UnendedIsLost(p, h);
    assert Values(ps) + [] == Values(ps);
  }

  lemma EndedDecodes(ps: seq<Piece>)
    requires Followed(ps, "")
    ensures Decoded(Scan(Text(ps), FRESH, true)) == Values(ps)
  {
    var h := TextYields(ps, [], Held(0, false));
    assert Text(ps) + [] == Text(ps);
    YieldsDecoded(At(Text(ps), Held(0, false)), Values(ps), At([], h));
    assert Values(ps) + [] == Values(ps);
  }

  /** Any string without 0x00 and 0xFF, written as any mix of plain characters, escaped ones, numeric
      escapes of all lengths and continued lines, decodes to itself, exactly if the text does not end
      in an escape that could have more digits. */
  lemma DecodeInverse(ps: seq<Piece>)
    requires AllLegal(ps)
    ensures Decoded(Scan(Text(ps), FRESH, true)) == Values(ps) <==> ps == [] || !Short(ps[|ps| - 1])
  {
    if ps == [] || !Short(ps[|ps| - 1]) {
      EndedDecodes(ps);
    } else {
      Unsnoc(ps);
      UnendedDecodes(ps[..|ps| - 1], ps[|ps| - 1], ps);
    }
  }

  // ------------------------------------------------------------------ skipping and collecting

  lemma {:induction false} SkipYields(s: Scan, cs: string, z: char, t: Scan, classes: set<Class>, over: bool)
    requires Yields(s, cs + [z], t)
    requires forall i | 0 <= i < |cs| :: In(cs[i], classes) == over
    requires In(z, classes) != over
    ensures Skip(s, classes, over) == PushBack(t, z)
    decreases |cs|
  {
    if cs == [] {
      assert cs + [z] == [z];
      assert Yields(Next(s).0, [z][1..], t);
    } else {
      assert (cs + [z])[1..] == cs[1..] + [z];
      SkipYields(Next(s).0, cs[1..], z, t, classes, over);
    }
  }

  lemma {:induction false} SlurpYields(
    s: Scan, cs: string, z: char, t: Scan, good: set<Class>, bad: set<Class>, got: string)
    requires Yields(s, cs + [z], t)
    requires forall i | 0 <= i < |cs| :: !In(cs[i], good) && !In(cs[i], bad)
    requires In(z, good)
    ensures Slurp(s, good, bad, got) == (PushBack(t, z), Some(got + cs))
    decreases |cs|
  {
    if cs == [] {
      assert cs + [z] == [z] && got + cs == got;
      assert Yields(Next(s).0, [z][1..], t);
    } else {
      assert (cs + [z])[1..] == cs[1..] + [z];
      SlurpYields(Next(s).0, cs[1..], z, t, good, bad, got + [cs[0]]);
      assert got + [cs[0]] + cs[1..] == got + cs;
    }
  }
}
