/** Whole configuration files: what is written is what is read. */
module CopaRoundTrip {
  import opened CaseFold
  import opened CfgRead
  import opened Common
  import opened CopaFile
  import opened CopaLines
  import opened CopaParse
  import opened CopaParser
  import opened CopaScan
  import opened CopaScanner
  import opened CopaText
  import opened NameTable
  import opened NameTree

  /** A file is a list of global settings, blocks, comments and blanks; a block holds settings, comments
      and blanks. Its end tag may have another name than its start tag. */
  datatype Item =
    | Global(setting: Setting)
    | Block(first: seq<Piece>, body: seq<Line>, last: seq<Piece>)
    | Note(line: Line)

  predicate IsNote(l: Line) {
    l.Remark? || l.Blank?
  }

  predicate AllInside(body: seq<Line>) {
    forall i | 0 <= i < |body| :: body[i].Assigning? || IsNote(body[i])
  }

  predicate LegalItem(item: Item) {
    match item
    case Global(st) => LegalSetting(st)
    case Block(first, body, last) =>
      LegalStart(first) && AllLegalLines(body) && AllInside(body) && LegalEnd(last)
    case Note(l) => IsNote(l) && LegalLine(l)
  }

  function ItemLines(item: Item): seq<Line> {
    match item
    case Global(st) => [Assigning(st)]
    case Block(first, body, last) => [Starting(first)] + body + [Ending(last)]
    case Note(l) => [l]
  }

  function FileLines(items: seq<Item>): seq<Line> {
    if items == [] then [] else ItemLines(items[0]) + FileLines(items[1..])
  }

  // What the file means, said without the parser.

  function SettingsOf(body: seq<Line>): seq<Setting> {
    if body == [] then []
    else (if body[0].Assigning? then [body[0].setting] else []) + SettingsOf(body[1..])
  }

  function SettingsEvents(settings: seq<Setting>): seq<Event> {
    if settings == [] then [] else [AssignedBy(settings[0])] + SettingsEvents(settings[1..])
  }

  function ItemEvents(item: Item): seq<Event> {
    match item
    case Global(st) => [AssignedBy(st)]
    case Block(first, body, last) =>
      [Started(Values(first))] + SettingsEvents(SettingsOf(body)) + [Ended(Values(last))]
    case Note(_) => []
  }

  function FileEvents(items: seq<Item>): seq<Event> {
    if items == [] then [] else ItemEvents(items[0]) + FileEvents(items[1..])
  }

  function SettingsContents(d: Contents, settings: seq<Setting>): Contents
    decreases |settings|
  {
    if settings == [] then d
    else SettingsContents(d[Fold(Values(settings[0].name)) := Some(Values(settings[0].value.text))], settings[1..])
  }

  function Globals(items: seq<Item>): seq<Setting> {
    if items == [] then []
    else (if items[0].Global? then [items[0].setting] else []) + Globals(items[1..])
  }

  /** The resources of a block go by the name in its end tag. BlockMakes says what they are. */
  function ItemResources(item: Item): seq<Resource> {
    match item
    case Block(_, body, last) => ResourcesOf(Values(last), SettingsContents(map[], SettingsOf(body)))
    case _ => []
  }

  function BlockResources(items: seq<Item>): seq<Resource> {
    if items == [] then [] else ItemResources(items[0]) + BlockResources(items[1..])
  }

  // ------------------------------------------------------------------ what the lines of a file do

  lemma {:induction false} BodyPerformed(o: Outcome, body: seq<Line>)
    requires o.status == Ok && o.config.block.Some? && AllInside(body)
    ensures PerformAll(o, body)
         == Outcome(Ok, o.events + SettingsEvents(SettingsOf(body)),
                    o.config.(block := Some(SettingsContents(o.config.block.value, SettingsOf(body)))))
    decreases |body|
  {
    if body == [] {
      assert o.events + [] == o.events;
    } else {
      var o1 := Perform(o, body[0]);
      BodyPerformed(o1, body[1..]);
      if body[0].Assigning? {
        assert SettingsOf(body)[1..] == SettingsOf(body[1..]);
        Assoc(o.events, [AssignedBy(body[0].setting)], SettingsEvents(SettingsOf(body[1..])));
      } else {
        FromNothing(SettingsOf(body[1..]));
      }
    }
  }

  lemma PerformOne(o: Outcome, l: Line)
    ensures PerformAll(o, [l]) == Perform(o, l)
  {
    assert [l][1..] == [];
  }

  lemma BlockPerformed(o: Outcome, item: Item)
    requires o.status == Ok && o.config.block.None? && item.Block? && AllInside(item.body)
    ensures PerformAll(o, ItemLines(item))
         == Outcome(Ok, o.events + ItemEvents(item), o.config.(resources := o.config.resources + ItemResources(item)))
  {
    var start, end := [Starting(item.first)], [Ending(item.last)];
    var s, e := [Started(Values(item.first))], [Ended(Values(item.last))];
    var t := SettingsEvents(SettingsOf(item.body));
    PerformConcat(o, start + item.body, end);
    PerformConcat(o, start, item.body);
    PerformOne(o, Starting(item.first));
    BodyPerformed(Perform(o, Starting(item.first)), item.body);
    PerformOne(PerformAll(o, start + item.body), Ending(item.last));
    Assoc(o.events, s, t);
    Assoc(o.events, s + t, e);
  }

  /** What one item does. */
  function Extended(o: Outcome, item: Item): Outcome
    requires o.config.block.None?
  {
    var config := match item
                  case Global(st) => Assign(o.config, Values(st.name), Values(st.value.text))
                  case _ => o.config.(resources := o.config.resources + ItemResources(item));
    Outcome(Ok, o.events + ItemEvents(item), config)
  }

  lemma ItemPerformed(o: Outcome, item: Item)
    requires o.status == Ok && o.config.block.None? && LegalItem(item)
    ensures PerformAll(o, ItemLines(item)) == Extended(o, item) && Extended(o, item).config.block.None?
  {
    match item {
      case Global(st) => PerformOne(o, Assigning(st));
      case Block(_, _, _) => BlockPerformed(o, item);
      case Note(l) =>
        PerformOne(o, l);
        assert o.events + [] == o.events && o.config.resources + [] == o.config.resources;
    }
  }

  predicate AllLegalItems(items: seq<Item>) {
    forall i | 0 <= i < |items| :: LegalItem(items[i])
  }

  lemma {:induction false} FilePerformed(o: Outcome, items: seq<Item>)
    requires o.status == Ok && o.config.block.None? && AllLegalItems(items)
    ensures PerformAll(o, FileLines(items))
         == Outcome(Ok, o.events + FileEvents(items),
                    Config(SettingsContents(o.config.dictionary, Globals(items)), None,
                           o.config.resources + BlockResources(items)))
    decreases |items|
  {
    if items == [] {
      assert o.events + [] == o.events && o.config.resources + [] == o.config.resources;
    } else {
      var o1 := Extended(o, items[0]);
      PerformConcat(o, ItemLines(items[0]), FileLines(items[1..]));
      ItemPerformed(o, items[0]);
      FilePerformed(o1, items[1..]);
      Assoc(o.events, ItemEvents(items[0]), FileEvents(items[1..]));
      ItemAdds(o, items);
    }
  }

  lemma ContentsCons(d: Contents, st: Setting, settings: seq<Setting>)
    ensures SettingsContents(d, [st] + settings)
         == SettingsContents(d[Fold(Values(st.name)) := Some(Values(st.value.text))], settings)
  {
    assert ([st] + settings)[1..] == settings;
  }

  /** The dictionary and the resources after the first item, in front of those of the rest. */
  lemma ItemAdds(o: Outcome, items: seq<Item>)
    requires o.config.block.None? && items != []
    ensures var c := Extended(o, items[0]).config;
            && SettingsContents(c.dictionary, Globals(items[1..]))
            == SettingsContents(o.config.dictionary, Globals(items))
            && c.resources + BlockResources(items[1..]) == o.config.resources + BlockResources(items)
  {
    Assoc(o.config.resources, ItemResources(items[0]), BlockResources(items[1..]));
    match items[0] {
      case Global(st) =>
        ContentsCons(o.config.dictionary, st, Globals(items[1..]));
        assert o.config.resources + [] == o.config.resources;
      case _ => assert [] + Globals(items[1..]) == Globals(items[1..]);
    }
  }

  lemma {:induction false} FileLinesLegal(items: seq<Item>)
    requires AllLegalItems(items)
    ensures AllLegalLines(FileLines(items))
  {
    if items == [] {
    } else {
      assert LegalItem(items[0]);
      FileLinesLegal(items[1..]);
    }
  }

  lemma FromNothing<T>(s: seq<T>)
    ensures [] + s == s
  {
  }

  /** What the lines of a file come to. */
  lemma ItemsPerformed(items: seq<Item>)
    requires AllLegalItems(items)
    ensures PerformAll(BEGIN, FileLines(items))
         == Outcome(Ok, FileEvents(items), Config(SettingsContents(map[], Globals(items)), None, BlockResources(items)))
  {
    FilePerformed(BEGIN, items);
    FromNothing(FileEvents(items));
    FromNothing(BlockResources(items));
  }

  /** Reading back a written file makes the callbacks that were written, in order, and builds the
      dictionary of the global settings and the resources of the blocks in order. */
  lemma FileRoundTrip(items: seq<Item>, k: nat, fd: Source)
    requires AllLegalItems(items) && Holds(fd, FileLines(items), k)
    ensures Returned(fd, NOTHING) == if fd == [] then SysErr else Ok
    ensures Parsed(fd).events == FileEvents(items)
    ensures Parsed(fd).config == Config(SettingsContents(map[], Globals(items)), None, BlockResources(items))
  {
    FileLinesLegal(items);
    LinesRoundTrip(FileLines(items), k, fd);
    ItemsPerformed(items);
  }

  // ------------------------------------------------------------------ its dictionaries, as they are written

  /** The inserts into the dictionary that a file's settings go to. */
  function Inserts(settings: seq<Setting>): seq<Entry> {
    if settings == [] then []
    else Inserts(settings[..|settings| - 1]) + [EntryOf(settings[|settings| - 1])]
  }

  function EntryOf(st: Setting): Entry {
    Entry(Values(st.name), Some(Values(st.value.text)))
  }

  lemma {:induction false} ContentsSnoc(d: Contents, settings: seq<Setting>, st: Setting)
    ensures SettingsContents(d, settings + [st])
         == SettingsContents(d, settings)[Fold(Values(st.name)) := Some(Values(st.value.text))]
    decreases |settings|
  {
    if settings == [] {
      ContentsCons(d, st, []);
      assert [] + [st] == [st] + [];
    } else {
      var rest := settings[1..];
      assert settings + [st] == [settings[0]] + (rest + [st]) && settings == [settings[0]] + rest;
      ContentsCons(d, settings[0], rest + [st]);
      ContentsCons(d, settings[0], rest);
      ContentsSnoc(d[Fold(Values(settings[0].name)) := Some(Values(settings[0].value.text))], rest, st);
    }
  }

  lemma {:induction false} ContentsAreInserted(settings: seq<Setting>)
    ensures SettingsContents(map[], settings) == AfterInserts(Inserts(settings))
  {
    if settings == [] {
    } else {
      var past, st := settings[..|settings| - 1], settings[|settings| - 1];
      ContentsAreInserted(past);
      assert past + [st] == settings;
      ContentsSnoc(map[], past, st);
      assert (Inserts(past) + [EntryOf(st)])[..|Inserts(past)|] == Inserts(past);
    }
  }

  /** The dictionary of the global settings, or of a block, finds under each name what the round trip
      says it holds, whatever the comparisons in x_tree_insert come to, if no setting crowds a bucket. */
  lemma UncrowdedSettings(settings: seq<Setting>, outs: seq<Less>, o: Outcomes)
    requires Uncrowded(Inserts(settings), o) && |outs| == |Inserts(settings)| && AllHad(outs, o)
    ensures Right(TableAfter(Inserts(settings), outs), SettingsContents(map[], settings))
  {
    UncrowdedIsRight(Inserts(settings), outs, o);
    ContentsAreInserted(settings);
  }

  // ------------------------------------------------------------------ what a block makes

  /** The last value set under a name equal to this one but for case. */
  function LastValue(settings: seq<Setting>, name: string): Option<string> {
    if settings == [] then None
    else
      var past, st := settings[..|settings| - 1], settings[|settings| - 1];
      if CaseCompare(Values(st.name), name) == 0 then Some(Values(st.value.text)) else LastValue(past, name)
  }

  lemma {:induction false} ReadingIsLast(settings: seq<Setting>, name: string)
    ensures Reading(SettingsContents(map[], settings), name) == LastValue(settings, name)
  {
    if settings == [] {
    } else {
      var past, st := settings[..|settings| - 1], settings[|settings| - 1];
      Unsnoc(settings);
      ContentsSnoc(map[], past, st);
      ReadingIsLast(past, name);
      CompareIsFold(Values(st.name), name);
    }
  }

  /** The name starts like this, but for case. */
  predicate Begins(name: string, prefix: string) {
    |prefix| <= |name| && CaseCompare(name[..|prefix|], prefix) == 0
  }

  lemma BeginsExactly(name: string, prefix: string)
    ensures Begins(name, prefix) <==> StartsWith(name, prefix)
  {
    if |prefix| <= |name| {
      CompareIsFold(name[..|prefix|], prefix);
    }
  }

  lemma OneKindOnly(name: string)
    ensures !(StartsWith(name, "StaticText") && StartsWith(name, "Stdin"))
    ensures !(StartsWith(name, "StaticText") && StartsWith(name, "OggStdin"))
    ensures !(StartsWith(name, "Stdin") && StartsWith(name, "OggStdin"))
  {
    if StartsWith(name, "StaticText") {
      assert Fold(name[..10])[2] == 'a' && Fold(name[..10])[0] == 's';
    }
    if StartsWith(name, "Stdin") {
      assert Fold(name[..5])[2] == 'd' && Fold(name[..5])[0] == 's';
    }
    if StartsWith(name, "OggStdin") {
      assert Fold(name[..8])[0] == 'o';
    }
  }

  /** At most one resource comes of a block, by the name in its end tag, if the settings that it needs
      are there: which one, and its path, text and type. */
  lemma BlockMakes(name: string, settings: seq<Setting>)
    ensures var rs := ResourcesOf(name, SettingsContents(map[], settings));
            var path, text := LastValue(settings, "Path"), LastValue(settings, "Text");
            && |rs| <= 1
            && (rs != [] && rs[0].StaticText? <==> Begins(name, "StaticText") && path.Some? && text.Some?)
            && (rs != [] && rs[0].Stream? <==> Begins(name, "Stdin") && path.Some?)
            && (rs != [] && rs[0].OggStream? <==> Begins(name, "OggStdin") && path.Some?)
            && (rs != [] ==> path == Some(rs[0].path))
            && (rs != [] && rs[0].StaticText? ==> text == Some(rs[0].text))
    ensures var rs := ResourcesOf(name, SettingsContents(map[], settings));
            rs != [] ==> rs[0].contentType == match LastValue(settings, "Type") {
                                                case Some(t) => t
                                                case None => if rs[0].StaticText? then "text/plain"
                                                             else if rs[0].Stream? then "video/mp4"
                                                             else "application/ogg"
                                              }
  {
    ReadingIsLast(settings, "Path");
    ReadingIsLast(settings, "Text");
    ReadingIsLast(settings, "Type");
    BeginsExactly(name, "StaticText");
    BeginsExactly(name, "Stdin");
    BeginsExactly(name, "OggStdin");
    OneKindOnly(name);
  }

  // ------------------------------------------------------------------ a printer for plain strings

  /** A value is quoted with a quote it does not contain. */
  function Printed(name: string, value: string): Setting {
    Setting(Spell(name), " ", Quoted(if '"' in value then '\'' else '"', Spell(value)))
  }

  predicate Clean(s: string) {
    NUL !in s && EOF !in s
  }

  /** Exactly these names and values can be printed this way. */
  lemma PrintedIsLegal(name: string, value: string)
    ensures LegalSetting(Printed(name, value)) <==>
            && Clean(name) && name != [] && Free(name, {Whitespace, Comment}) && name[0] != '<'
            && Clean(value) && !('"' in value && '\'' in value)
    ensures AssignedBy(Printed(name, value)) == Assigned(name, value)
  {
    SpellLegal(name);
    SpellLegal(value);
  }

  lemma {:induction false} SpellLegal(s: string)
    ensures AllLegal(Spell(s)) <==> Clean(s)
  {
    if s == [] {
    } else {
      SpellLegal(s[1..]);
      LegalCons(Spell(s)[0], Spell(s[1..]));
      assert s == [s[0]] + s[1..];
    }
  }
}
