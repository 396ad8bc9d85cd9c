/**
 The scanner of cfg-parse.c on a whole text: what successive characters the parser sees. A C char
 is a Dafny char below 256; 0xFF is the char -1, which the C code also uses for "no more input".
 CopaParser.dfy proves the buffered scanner against these functions.
 */
module CopaScan {
  import opened Common

  const EOF: char := '\U{FF}'
  const BACKSLASH: char := '\\'

  datatype Class = Newline | Whitespace | Comment | LBracket | RBracket | DQuote | SQuote | Slash

  /** copa_cin: is c in one of the classes? */
  predicate In(c: char, classes: set<Class>) {
    || (Newline in classes && (c == '\n' || c == '\r'))
    || (Whitespace in classes && IsSpace(c))
    || (Comment in classes && c == '#')
    || (LBracket in classes && c == '<')
    || (RBracket in classes && c == '>')
    || (DQuote in classes && c == '"')
    || (SQuote in classes && c == '\'')
    || (Slash in classes && c == '/')
  }

  /** isspace in the C locale. */
  predicate IsSpace(c: char) {
    c == ' ' || '\t' <= c <= '\r'
  }

  function Octal(c: char): int {
    if '0' <= c <= '7' then c as int - '0' as int else -1
  }

  function Hex(c: char): int {
    if '0' <= c <= '9' then c as int - '0' as int
    else if 'a' <= c <= 'f' then c as int - 'a' as int + 10
    else if 'A' <= c <= 'F' then c as int - 'A' as int + 10
    else -1
  }

  /** The classes, by their characters. */
  lemma ClassesAre(c: char)
    ensures In(c, {Whitespace}) <==> c in " \t\n\U{0B}\U{0C}\r"
    ensures In(c, {Newline}) <==> c in "\n\r"
    ensures In(c, {Comment}) <==> c == '#'
    ensures In(c, {LBracket}) <==> c == '<'
    ensures In(c, {RBracket}) <==> c == '>'
    ensures In(c, {DQuote}) <==> c == '"'
    ensures In(c, {SQuote}) <==> c == '\''
    ensures In(c, {Slash}) <==> c == '/'
  {
  }

  /** The digits, by their values. */
  lemma DigitsAre(c: char)
    ensures forall i | 0 <= i < 16 :: Hex("0123456789abcdef"[i]) == i && Hex("0123456789ABCDEF"[i]) == i
    ensures Hex(c) == -1 <==> c !in "0123456789abcdefABCDEF"
    ensures Octal(c) == if c in "01234567" then Hex(c) else -1
  {
  }

  /** What the scanner remembers between raw characters. `number` is the char numchar as 0..255. */
  datatype Mode = Mode(pushback: char, escape: bool, octal: nat, hex: nat, number: nat)

  const FRESH := Mode(NUL, false, 0, 0, 0)

  function CharOf(n: nat): char {
    (n % 256) as char
  }

  /** The end of a numeric escape at raw character c: c is kept for later, the number comes out. */
  function EndNumber(m: Mode, c: char): (Mode, char) {
    (if c == BACKSLASH then m.(escape := true) else m.(pushback := c), CharOf(m.number))
  }

  /** The character after a backslash. */
  function AfterBackslash(m: Mode, c: char): (Mode, char) {
    var m' := m.(escape := false);
    match c
    case 'a' => (m', '\U{07}')
    case 'b' => (m', '\U{08}')
    case 'f' => (m', '\U{0C}')
    case 'n' => (m', '\n')
    case 'r' => (m', '\r')
    case 't' => (m', '\t')
    case 'v' => (m', '\U{0B}')
    case '\n' => (m', NUL)
    case '\r' => (m', NUL)
    case 'x' => (m'.(hex := 2, number := 0), NUL)
    case _ => if Octal(c) != -1 then (m'.(octal := 3, number := Octal(c)), NUL) else (m', c)
  }

  /** One turn of the loop of copa_next with raw character c; NUL comes out when it goes on. */
  function Feed(m: Mode, c: char): (Mode, char) {
    if m.octal > 0 then
      if Octal(c) == -1 then EndNumber(m.(octal := 0), c)
      else
        var m' := m.(octal := m.octal - 1, number := (m.number * 8 + Octal(c)) % 256);
        (m', if m'.octal == 0 then CharOf(m'.number) else NUL)
    else if m.hex > 0 then
      if Hex(c) == -1 then EndNumber(m.(hex := 0), c)
      else
        var m' := m.(hex := m.hex - 1, number := (m.number * 16 + Hex(c)) % 256);
        (m', if m'.hex == 0 then CharOf(m'.number) else NUL)
    else if m.escape then AfterBackslash(m, c)
    else if c == BACKSLASH then (m.(escape := true), NUL)
    else (m, c)
  }

  /** The scanner over the rest of a text; `active` goes down at its end or on a syntax error. */
  datatype Scan = Scan(rest: string, mode: Mode, active: bool) {
    /** Bounds the characters still to come; a pushed-back one counts half a raw one. */
    function Weight(): nat {
      2 * |rest| + if mode.pushback != NUL then 1 else 0
    }
  }

  function Pull(s: Scan): (r: (Scan, char))
    ensures r.0.Weight() <= s.Weight()
    ensures r.0.active ==> s.active
    ensures s.mode.pushback == NUL ==> r.0.Weight() < s.Weight() || !r.0.active
    ensures r.1 != NUL
    decreases |s.rest|
  {
    if s.rest == [] then (s.(active := false), EOF)
    else
      var (m, c) := Feed(s.mode, s.rest[0]);
      var s' := Scan(s.rest[1..], m, s.active);
      if c != NUL then (s', c) else Pull(s')
  }

  /** copa_next. */
  function Next(s: Scan): (r: (Scan, char))
    ensures r.0.Weight() < s.Weight() || (!r.0.active && r.1 == EOF && r.0.Weight() <= s.Weight())
    ensures (r.0.active ==> s.active) && r.1 != NUL
  {
    if s.mode.pushback != NUL then (s.(mode := s.mode.(pushback := NUL)), s.mode.pushback)
    else Pull(s)
  }

  function PushBack(s: Scan, c: char): Scan {
    s.(mode := s.mode.(pushback := c))
  }

  /** copa_peek. */
  function Peek(s: Scan): (r: (Scan, char))
    ensures r.0.Weight() <= s.Weight() && (r.0.active ==> s.active)
  {
    if s.mode.pushback != NUL then (s, s.mode.pushback)
    else
      var (t, c) := Next(s);
      if c == EOF then (t, EOF) else (PushBack(t, c), c)
  }

  /** Skipping has stopped at a character, now pushed back. */
  predicate StoppedAt(s: Scan, classes: set<Class>, over: bool) {
    var c := s.mode.pushback;
    c != NUL && c != EOF && In(c, classes) != over
  }

  /** The loops of copa_skip_over and copa_skip_to: stop before the first character that is in
      the classes (or is not, when `over`). */
  function Skip(s: Scan, classes: set<Class>, over: bool): (t: Scan)
    ensures t.Weight() <= s.Weight() && (t.active ==> s.active)
    ensures t.Weight() < s.Weight() || !t.active || StoppedAt(t, classes, over)
    decreases s.Weight()
  {
    var (t, c) := Next(s);
    if c == EOF then t
    else if In(c, classes) != over then PushBack(t, c)
    else Skip(t, classes, over)
  }

  function SkipOver(s: Scan, classes: set<Class>): Scan {
    if s.active then Skip(s, classes, true) else s
  }

  function SkipTo(s: Scan, classes: set<Class>): Scan {
    if s.active then Skip(s, classes, false) else s
  }

  /** The loop of copa_slurp_to, with `got` already collected. */
  function Slurp(s: Scan, good: set<Class>, bad: set<Class>, got: string): (r: (Scan, Option<string>))
    ensures r.0.Weight() <= s.Weight() && (r.0.active ==> s.active)
    ensures r.1 == None ==> !r.0.active
    decreases s.Weight()
  {
    var (t, c) := Next(s);
    if c == EOF then (t, Some(got))
    else if In(c, good) then (PushBack(t, c), Some(got))
    else if In(c, bad) then (PushBack(t.(active := false), c), None)
    else Slurp(t, good, bad, got + [c])
  }

  function SlurpTo(s: Scan, good: set<Class>, bad: set<Class>): (Scan, Option<string>) {
    if s.active then Slurp(s, good, bad, []) else (s, None)
  }

  /** copa_assert_and_pass. */
  function Expect(s: Scan, classes: set<Class>): (r: (Scan, bool))
    ensures r.0.Weight() <= s.Weight() && (r.0.active ==> s.active)
  {
    if !s.active then (s, false)
    else
      var (t, c) := Next(s);
      if In(c, classes) then (t, true) else (t.(active := false), false)
  }

  /** copa_slurp_quoted. */
  function SlurpQuoted(s: Scan): (Scan, Option<string>) {
    if !s.active then (s, None)
    else
      var (t, c) := Next(s);
      var quote := if In(c, {SQuote}) then {SQuote} else {DQuote};
      var (u, text) := SlurpTo(t, quote, {});
      if text == None then (u, None)
      else
        var (v, ok) := Expect(u, quote);
        (v, if ok then text else None)
  }
}
