/** The configuration parser of cfg-parse.c driving the callbacks of cfg-read.c. */
module CopaParser {
  import opened CfgRead
  import opened Common
  import opened CopaParse
  import opened CopaScan
  import opened CopaScanner

  class Parser {
    const scanner: Scanner
    const handler: CfgReader
    var status: Status
    ghost var events: seq<Event>

    ghost predicate Valid()
      reads this, scanner, handler, handler.repr
    {
      && scanner.Valid() && handler.Valid()
      && {this, scanner, scanner.buffer} !! handler.repr
    }

    ghost function View(): Parse
      reads this, scanner, scanner.buffer, handler, handler.repr
      requires Valid()
    {
      Parse(scanner.View(), status, events, handler.View())
    }

    constructor (scanner: Scanner, handler: CfgReader)
      requires scanner.Valid() && handler.Valid() && {scanner, scanner.buffer} !! handler.repr
      ensures Valid() && this.scanner == scanner && this.handler == handler
      ensures status == Ok && events == []
    {
      this.scanner, this.handler := scanner, handler;
      status, events := Ok, [];
    }

    /** copa_parse_assignment, as far as the callback. */
    method ReadAssignment() returns (got: Option<(string, string)>)
      requires scanner.Valid()
      modifies scanner, scanner.buffer
      ensures scanner.Valid() && (scanner.View(), got) == ScanAssignment(old(scanner.View()))
    {
      if !scanner.active {
        return None;
      }
      var name := scanner.SlurpToClass({Whitespace}, {Comment, Newline});
      if name == None {
        return None;
      }
      scanner.SkipOverClass({Whitespace});
      var c := scanner.PeekChar();
      var value;
      if In(c, {DQuote, SQuote}) {
        value := scanner.SlurpQuotedText();
      } else {
        value := scanner.SlurpToClass({Comment, Newline}, {});
      }
      if value == None {
        scanner.active := false;
        return None;
      }
      return Some((name.value, value.value));
    }

    method CallAssign(name: string, value: string)
      requires Valid()
      modifies this, handler.repr
      ensures Valid() && fresh(handler.repr - old(handler.repr))
      ensures View() == ReportAssignment(old(View()), name, value)
    {
      if status == Ok {
        handler.OnAssign(name, value);
        events := events + [Assigned(name, value)];
      }
    }

    /** copa_parse_assignment. */
    method ParseAssignmentLine()
      requires Valid()
      modifies this, scanner, scanner.buffer, handler.repr
      ensures Valid() && fresh(handler.repr - old(handler.repr))
      ensures View() == ParseAssignment(old(View()))
    {
      var got := ReadAssignment();
      if got != None {
        CallAssign(got.value.0, got.value.1);
      }
    }

    /** copa_parse_block, as far as the callback. */
    method ReadBlock() returns (got: Option<(bool, string)>)
      requires scanner.Valid()
      modifies scanner, scanner.buffer
      ensures scanner.Valid() && (scanner.View(), got) == ScanBlock(old(scanner.View()))
    {
      var ok := scanner.AssertAndPass({LBracket});
      if !ok {
        return None;
      }
      var c := scanner.PeekChar();
      var end := In(c, {Slash});
      if end {
        var slash := scanner.NextChar();
      }
      var name := scanner.SlurpToClass({RBracket}, {Comment, Newline});
      if name == None {
        return None;
      }
      ok := scanner.AssertAndPass({RBracket});
      return if ok then Some((end, name.value)) else None;
    }

    method CallBlock(end: bool, name: string)
      requires Valid()
      modifies this, handler
      ensures Valid() && fresh(handler.repr - old(handler.repr))
      ensures View() == ReportBlock(old(View()), end, name)
    {
      if end {
        status := handler.OnBlockEnd(name);
        events := events + [Ended(name)];
      } else {
        status := handler.OnBlockStart(name);
        events := events + [Started(name)];
      }
    }

    /** copa_parse_block. */
    method ParseBlockLine()
      requires Valid()
      modifies this, scanner, scanner.buffer, handler.repr
      ensures Valid() && fresh(handler.repr - old(handler.repr))
      ensures View() == ParseBlock(old(View()))
    {
      ghost var before := View();
      var got := ReadBlock();
      assert View() == before.(scan := ScanBlock(before.scan).0);
      if got != None {
        CallBlock(got.value.0, got.value.1);
      }
    }

    /** White space, and a look at what follows it. */
    method StartLine() returns (c: char)
      requires Valid()
      modifies scanner, scanner.buffer
      ensures Valid() && handler.repr == old(handler.repr)
      ensures var (s, d) := Peek(SkipOver(old(scanner.View()), {Whitespace}));
              c == d && View() == old(View()).(scan := s)
    {
      scanner.SkipOverClass({Whitespace});
      c := scanner.PeekChar();
    }

    method SkipComment()
      requires Valid()
      modifies scanner, scanner.buffer
      ensures Valid() && handler.repr == old(handler.repr)
      ensures View() == old(View()).(scan := SkipTo(old(scanner.View()), {Newline}))
    {
      scanner.SkipToClass({Newline});
    }

    /** copa_parse_line. */
    method ParseOneLine()
      requires Valid()
      modifies this, scanner, scanner.buffer, handler.repr
      ensures Valid() && fresh(handler.repr - old(handler.repr))
      ensures View() == ParseLine(old(View()))
    {
      var c := StartLine();
      if In(c, {Comment}) {
        SkipComment();
      } else if In(c, {LBracket}) {
        ParseBlockLine();
      } else {
        ParseAssignmentLine();
      }
    }

    /** The loop of copa_read_fd, after the first refill. */
    method ParseLines()
      requires Valid()
      modifies this, scanner, scanner.buffer, handler.repr
      ensures Valid() && fresh(handler.repr - old(handler.repr))
      ensures View() == ParseAll(old(View()))
    {
      while scanner.active
        invariant Valid() && fresh(handler.repr - old(handler.repr))
        invariant ParseAll(View()) == ParseAll(old(View()))
        decreases scanner.active, scanner.View().Weight()
      {
        ParseLineProgress(View());
        ParseOneLine();
      }
    }
  }

  /** What a parse of a file with these reads comes to, from this configuration. */
  ghost function ParsedFrom(fd: Source, config: Config): Parse
    requires SourceOk(fd)
  {
    ParseAll(Parse(FirstScan(fd), Ok, [], config))
  }

  ghost function Parsed(fd: Source): Parse
    requires SourceOk(fd)
  {
    ParsedFrom(fd, NOTHING)
  }

  /** What copa_read_fd returns. */
  ghost function Returned(fd: Source, config: Config): Status
    requires SourceOk(fd)
  {
    var status := ParsedFrom(fd, config).status;
    if fd == [] then SysErr else if status == SkipBlock then Ok else status
  }

  /** copa_read_fd: the parse that copa_read and cfg_read start. */
  method ReadFd(fd: Source, handler: CfgReader) returns (ret: Status, ghost events: seq<Event>)
    requires SourceOk(fd) && handler.Valid()
    modifies handler.repr
    ensures handler.Valid() && fresh(handler.repr - old(handler.repr))
    ensures ret == Returned(fd, old(handler.View()))
    ensures fd == [] ==> events == [] && handler.View() == old(handler.View())
    ensures fd != [] ==>
              var q := ParsedFrom(fd, old(handler.View())); events == q.events && handler.View() == q.config
  {
    var scanner := new Scanner(fd);
    events := [];
    var ok := scanner.Refill();
    if !ok {
      return SysErr, [];
    }
    assert scanner.View() == FirstScan(fd);
    ret, events := ParseFrom(scanner, handler);
  }

  /** copa_read_fd after the first refill. */
  method ParseFrom(scanner: Scanner, handler: CfgReader) returns (ret: Status, ghost events: seq<Event>)
    requires scanner.Valid() && handler.Valid() && {scanner, scanner.buffer} !! handler.repr
    modifies scanner, scanner.buffer, handler.repr
    ensures handler.Valid() && fresh(handler.repr - old(handler.repr))
    ensures var q := ParseAll(Parse(old(scanner.View()), Ok, [], old(handler.View())));
            && events == q.events && handler.View() == q.config
            && ret == if q.status == SkipBlock then Ok else q.status
  {
    var parser := new Parser(scanner, handler);
    parser.ParseLines();
    ret, events := if parser.status == SkipBlock then Ok else parser.status, parser.events;
  }

  /** copa_read on a path whose file, if it can be opened, has these reads. What copa_read_fd returns
      is dropped. */
  method ReadPath(file: Option<Source>, handler: CfgReader) returns (ret: Status, ghost events: seq<Event>)
    requires (file.Some? ==> SourceOk(file.value)) && handler.Valid() && handler.View() == NOTHING
    modifies handler.repr
    ensures handler.Valid() && fresh(handler.repr - old(handler.repr))
    ensures ret == if file.Some? then Ok else SysErr
    ensures file.Some? && file.value != [] ==>
              events == Parsed(file.value).events && handler.View() == Parsed(file.value).config
    ensures file.None? || file.value == [] ==> events == [] && handler.View() == NOTHING
  {
    if file.None? {
      return SysErr, [];
    }
    var status;
    status, events := ReadFd(file.value, handler);
    ret := Ok;
  }

  /** cfg_read: nothing, if the file cannot be opened. */
  method ReadConfig(file: Option<Source>) returns (cfg: Option<CfgReader>, ghost events: seq<Event>)
    requires file.Some? ==> SourceOk(file.value)
    ensures cfg.Some? <==> file.Some?
    ensures cfg.Some? ==> cfg.value.Valid() && fresh(cfg.value) && fresh(cfg.value.repr)
    ensures cfg.Some? && file.value == [] ==> cfg.value.View() == NOTHING && events == []
    ensures cfg.Some? && file.value != [] ==>
              cfg.value.View() == Parsed(file.value).config && events == Parsed(file.value).events
  {
    var reader := new CfgReader();
    var status;
    status, events := ReadPath(file, reader);
    cfg := if status == Ok then Some(reader) else None;
  }
}
