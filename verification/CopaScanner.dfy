/** The buffered scanner of cfg-parse.c: an 8-byte buffer refilled from a file descriptor. */
module CopaScanner {
  import opened Common
  import opened CopaScan

  const BUFFER_SIZE: nat := 8

  /** The results that the read calls on a descriptor will have before the first that is empty
      or fails. */
  type Source = seq<string>

  ghost predicate SourceOk(fd: Source) {
    forall i | 0 <= i < |fd| :: 1 <= |fd[i]| <= BUFFER_SIZE
  }

  /** The raw characters the scanner will take out of its buffer once what is in it now is used
      up. A short read leaves the old characters in the rest of the buffer, and as the refill is
      triggered by the buffer's size they are scanned again. */
  ghost function Overlay(buffer: string, fd: Source): string
    requires SourceOk(fd) && |buffer| == BUFFER_SIZE
    decreases |fd|
  {
    if fd == [] then []
    else
      var filled := fd[0] + buffer[|fd[0]|..];
      filled + Overlay(filled, fd[1..])
  }

  ghost function Concat(fd: Source): string {
    if fd == [] then [] else fd[0] + Concat(fd[1..])
  }

  function Zeros(k: nat): string {
    seq(k, i => NUL)
  }

  /** Where copa_read_fd starts once its first refill has succeeded. */
  ghost function FirstScan(fd: Source): Scan
    requires SourceOk(fd)
  {
    Scan(Overlay(Zeros(BUFFER_SIZE), fd), FRESH, true)
  }

  class Scanner {
    const buffer: array<char>
    var fd: Source
    var offset: nat
    var active: bool
    var pushback: char
    var escape: bool
    var octal: nat
    var hex: nat
    var numchar: char

    ghost predicate Valid()
      reads this
    {
      buffer.Length == BUFFER_SIZE && offset <= BUFFER_SIZE && SourceOk(fd) && numchar as int < 256
    }

    ghost function ModeView(): Mode
      reads this
    {
      Mode(pushback, escape, octal, hex, numchar as int)
    }

    /** What is left to scan, as one text. */
    ghost function View(): Scan
      reads this, buffer
      requires Valid()
    {
      Scan(buffer[offset..] + Overlay(buffer[..], fd), ModeView(), active)
    }

    /** The parser state copa_read_fd starts from, before its first refill. */
    constructor (fd: Source)
      requires SourceOk(fd)
      ensures Valid() && fresh(buffer) && this.fd == fd
      ensures buffer[..] == Zeros(BUFFER_SIZE) && ModeView() == FRESH && active
    {
      this.fd := fd;
      buffer := new char[BUFFER_SIZE](i => NUL);
      offset, active, pushback, escape, octal, hex, numchar := 0, true, NUL, false, 0, 0, NUL;
    }

    /** copa_refill. */
    method Refill() returns (ok: bool)
      requires Valid()
      modifies this`fd, this`offset, this`active, buffer
      ensures Valid() && ok == (old(fd) != [])
      ensures !ok ==> View() == old(View()).(active := false)
      ensures ok ==> View() == old(View()).(rest := Overlay(old(buffer[..]), old(fd)))
      ensures ok ==> offset == 0 && |fd| < |old(fd)|
    {
      if fd == [] {
        active := false;
        return false;
      }
      ghost var before := buffer[..];
      var chunk := fd[0];
      forall i | 0 <= i < |chunk| {
        buffer[i] := chunk[i];
      }
      assert buffer[..] == chunk + before[|chunk|..];
      fd, offset := fd[1..], 0;
      assert buffer[0..] == buffer[..];
      return true;
    }

    /** The escape machine in the loop of copa_next, for one raw character. */
    method Decode(raw: char) returns (c: char)
      requires numchar as int < 256
      modifies this`pushback, this`escape, this`octal, this`hex, this`numchar
      ensures (ModeView(), c) == Feed(old(ModeView()), raw) && numchar as int < 256
    {
      if octal > 0 {
        c := DecodeOctal(raw);
      } else if hex > 0 {
        c := DecodeHex(raw);
      } else if escape {
        c := Unescape(raw);
      } else if raw == BACKSLASH {
        escape := true;
        c := NUL;
      } else {
        c := raw;
      }
    }

    method DecodeOctal(raw: char) returns (c: char)
      requires octal > 0 && numchar as int < 256
      modifies this`pushback, this`escape, this`octal, this`numchar
      ensures (ModeView(), c) == Feed(old(ModeView()), raw) && numchar as int < 256
    {
      octal := octal - 1;
      var num := Octal(raw);
      if num == -1 {
        octal := 0;
        c := StopNumber(raw);
      } else {
        numchar := ((numchar as int * 8 + num) % 256) as char;
        c := if octal == 0 then numchar else NUL;
      }
    }

    method DecodeHex(raw: char) returns (c: char)
      requires octal == 0 && hex > 0 && numchar as int < 256
      modifies this`pushback, this`escape, this`hex, this`numchar
      ensures (ModeView(), c) == Feed(old(ModeView()), raw) && numchar as int < 256
    {
      hex := hex - 1;
      var num := Hex(raw);
      if num == -1 {
        hex := 0;
        c := StopNumber(raw);
      } else {
        numchar := ((numchar as int * 16 + num) % 256) as char;
        c := if hex == 0 then numchar else NUL;
      }
    }

    method StopNumber(raw: char) returns (c: char)
      requires numchar as int < 256
      modifies this`pushback, this`escape
      ensures (ModeView(), c) == EndNumber(old(ModeView()), raw)
    {
      if raw == BACKSLASH {
        escape := true;
      } else {
        pushback := raw;
      }
      c := numchar;
    }

    method Unescape(raw: char) returns (c: char)
      requires numchar as int < 256
      modifies this`escape, this`octal, this`hex, this`numchar
      ensures (ModeView(), c) == AfterBackslash(old(ModeView()), raw) && numchar as int < 256
    {
      escape := false;
      match raw {
        case 'a' => c := '\U{07}';
        case 'b' => c := '\U{08}';
        case 'f' => c := '\U{0C}';
        case 'n' => c := '\n';
        case 'r' => c := '\r';
        case 't' => c := '\t';
        case 'v' => c := '\U{0B}';
        case '\n' => c := NUL;
        case '\r' => c := NUL;
        case 'x' =>
          c, hex, numchar := NUL, 2, NUL;
        case _ =>
          c := raw;
          var num := Octal(raw);
          if num != -1 {
            c, octal, numchar := NUL, 3, num as char;
          }
      }
    }

    /** The next raw character, refilling the buffer when it is used up. */
    method Fetch() returns (ok: bool, raw: char)
      requires Valid()
      modifies this`fd, this`offset, this`active, buffer
      ensures Valid()
      ensures !ok ==> old(View()).rest == [] && View() == old(View()).(active := false)
      ensures ok ==> old(View()).rest != [] && raw == old(View()).rest[0]
                     && View() == old(View()).(rest := old(View()).rest[1..])
                     && (|fd| < old(|fd|) || (|fd| == old(|fd|) && offset > old(offset)))
    {
      ok, raw := true, NUL;
      if offset >= BUFFER_SIZE {
        assert buffer[offset..] == [];
        ok := Refill();
        if !ok {
          return;
        }
      }
      raw := buffer[offset];
      offset := offset + 1;
    }

    /** copa_next. */
    method NextChar() returns (c: char)
      requires Valid()
      modifies this, buffer
      ensures Valid() && (View(), c) == Next(old(View()))
    {
      if pushback != NUL {
        c := pushback;
        pushback := NUL;
        return;
      }
      c := NUL;
      while c == NUL
        invariant Valid()
        invariant if c == NUL then Pull(View()) == Pull(old(View())) else (View(), c) == Pull(old(View()))
        decreases |fd|, BUFFER_SIZE - offset
      {
        var ok, raw := Fetch();
        if !ok {
          return EOF;
        }
        c := Decode(raw);
      }
    }

    /** copa_peek. */
    method PeekChar() returns (c: char)
      requires Valid()
      modifies this, buffer
      ensures Valid() && (View(), c) == Peek(old(View()))
    {
      if pushback != NUL {
        return pushback;
      }
      c := NextChar();
      if c != EOF {
        pushback := c;
      }
    }

    /** copa_skip_over. */
    method SkipOverClass(classes: set<Class>)
      requires Valid()
      modifies this, buffer
      ensures Valid() && View() == SkipOver(old(View()), classes)
    {
      if !active {
        return;
      }
      var c := NextChar();
      while c != EOF
        invariant Valid()
        invariant Skip(old(View()), classes, true) ==
                  if c == EOF then View()
                  else if !In(c, classes) then PushBack(View(), c)
                  else Skip(View(), classes, true)
        decreases c != EOF, View().Weight()
      {
        if !In(c, classes) {
          pushback := c;
          return;
        }
        c := NextChar();
      }
    }

    /** copa_skip_to. */
    method SkipToClass(classes: set<Class>)
      requires Valid()
      modifies this, buffer
      ensures Valid() && View() == SkipTo(old(View()), classes)
    {
      if !active {
        return;
      }
      var c := NextChar();
      while c != EOF
        invariant Valid()
        invariant Skip(old(View()), classes, false) ==
                  if c == EOF then View()
                  else if In(c, classes) then PushBack(View(), c)
                  else Skip(View(), classes, false)
        decreases c != EOF, View().Weight()
      {
        if In(c, classes) {
          pushback := c;
          return;
        }
        c := NextChar();
      }
    }

    /** copa_slurp_to. */
    method SlurpToClass(good: set<Class>, bad: set<Class>) returns (text: Option<string>)
      requires Valid()
      modifies this, buffer
      ensures Valid() && (View(), text) == SlurpTo(old(View()), good, bad)
    {
      if !active {
        return None;
      }
      var got := [];
      var c := NextChar();
      while c != EOF
        invariant Valid()
        invariant Slurp(old(View()), good, bad, []) ==
                  if c == EOF then (View(), Some(got))
                  else if In(c, good) then (PushBack(View(), c), Some(got))
                  else if In(c, bad) then (PushBack(View().(active := false), c), None)
                  else Slurp(View(), good, bad, got + [c])
        decreases c != EOF, View().Weight()
      {
        if In(c, good) {
          pushback := c;
          return Some(got);
        } else if In(c, bad) {
          active, pushback := false, c;
          return None;
        }
        got := got + [c];
        c := NextChar();
      }
      return Some(got);
    }

    /** copa_assert_and_pass. */
    method AssertAndPass(classes: set<Class>) returns (ok: bool)
      requires Valid()
      modifies this, buffer
      ensures Valid() && (View(), ok) == Expect(old(View()), classes)
    {
      if !active {
        return false;
      }
      var c := NextChar();
      ok := In(c, classes);
      if !ok {
        active := false;
      }
    }

    /** copa_slurp_quoted. */
    method SlurpQuotedText() returns (text: Option<string>)
      requires Valid()
      modifies this, buffer
      ensures Valid() && (View(), text) == SlurpQuoted(old(View()))
    {
      if !active {
        return None;
      }
      var c := NextChar();
      var quote := if In(c, {SQuote}) then {SQuote} else {DQuote};
      text := SlurpToClass(quote, {});
      if text != None {
        var ok := AssertAndPass(quote);
        if !ok {
          text := None;
        }
      }
    }
  }
}
