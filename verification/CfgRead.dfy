/** The callbacks of cfg-read.c: what a configuration builds up while it is parsed. */
module CfgRead {
  import opened CaseFold
  import opened Common
  import opened D = Dictionary
  import opened NameTable
  import opened NameTree

  datatype Status = StopErr | SysErr | Ok | Stop | SkipBlock

  type Contents = map<string, Option<string>>

  datatype Resource =
    | StaticText(path: string, text: string, contentType: string)
    | Stream(path: string, contentType: string)
    | OggStream(path: string, contentType: string)

  /** struct cfg; `block` is the dictionary of the block being read, if there is one. */
  datatype Config = Config(dictionary: Contents, block: Option<Contents>, resources: seq<Resource>)

  const NOTHING := Config(map[], None, [])

  /** strncasecmp (name, prefix, |prefix|) == 0. */
  predicate StartsWith(name: string, prefix: string) {
    |prefix| <= |name| && Fold(name[..|prefix|]) == Fold(prefix)
  }

  function OrElse(value: Option<string>, default_: string): string {
    if value.Some? then value.value else default_
  }

  /** The resources that a finished block with this name and these contents stands for. */
  function ResourcesOf(name: string, d: Contents): seq<Resource> {
    var path, text, ctype := Reading(d, "Path"), Reading(d, "Text"), Reading(d, "Type");
    if StartsWith(name, "StaticText") then
      if path.Some? && text.Some? then [StaticText(path.value, text.value, OrElse(ctype, "text/plain"))] else []
    else if StartsWith(name, "Stdin") then
      if path.Some? then [Stream(path.value, OrElse(ctype, "video/mp4"))] else []
    else if StartsWith(name, "OggStdin") then
      if path.Some? then [OggStream(path.value, OrElse(ctype, "application/ogg"))] else []
    else []
  }

  function BlockStart(c: Config, name: string): (Config, Status) {
    if c.block.Some? then (c, StopErr) else (c.(block := Some(map[])), Ok)
  }

  function BlockEnd(c: Config, name: string): (Config, Status) {
    if c.block.None? then (c, StopErr)
    else (c.(block := None, resources := c.resources + ResourcesOf(name, c.block.value)), Ok)
  }

  function Assign(c: Config, name: string, value: string): Config {
    if c.block.Some? then c.(block := Some(c.block.value[Fold(name) := Some(value)]))
    else c.(dictionary := c.dictionary[Fold(name) := Some(value)])
  }

  /** struct cfg on the heap. */
  class CfgReader {
    var dictionary: D.Dictionary
    var blockDict: D.Dictionary?
    var resources: seq<Resource>
    ghost var repr: set<object>

    ghost predicate Valid()
      reads this, repr
    {
      && this in repr && dictionary in repr && dictionary.repr <= repr && this !in dictionary.repr
      && Good(dictionary)
      && (blockDict != null ==>
            blockDict in repr && blockDict.repr <= repr && this !in blockDict.repr
            && blockDict.repr !! dictionary.repr && Good(blockDict))
    }

    ghost static predicate Good(d: D.Dictionary)
      reads d, d.repr
    {
      d.Valid() && d.Faithful()
    }

    ghost function View(): Config
      reads this, dictionary, blockDict
    {
      Config(dictionary.contents, if blockDict == null then None else Some(blockDict.contents), resources)
    }

    constructor ()
      ensures Valid() && fresh(repr) && View() == NOTHING
    {
      dictionary := new D.Dictionary();
      blockDict := null;
      resources := [];
      new;
      repr := {this} + dictionary.repr;
    }

    method OnBlockStart(name: string) returns (status: Status)
      requires Valid()
      modifies this
      ensures Valid() && fresh(repr - old(repr)) && (View(), status) == BlockStart(old(View()), name)
    {
      if blockDict != null {
        return StopErr;
      }
      blockDict := new D.Dictionary();
      repr := repr + blockDict.repr;
      return Ok;
    }

    /** statictext_resources, fdstream_resources or oggstdin_resources, chosen by the block's name. */
    static method MakeResources(name: string, d: D.Dictionary) returns (made: seq<Resource>)
      requires Good(d)
      ensures made == ResourcesOf(name, d.contents)
    {
      var path := d.Lookup("Path");
      var text := d.Lookup("Text");
      var ctype := d.Lookup("Type");
      made := [];
      if StartsWith(name, "StaticText") {
        if path.Some? && text.Some? {
          made := [StaticText(path.value, text.value, OrElse(ctype, "text/plain"))];
        }
      } else if StartsWith(name, "Stdin") {
        if path.Some? {
          made := [Stream(path.value, OrElse(ctype, "video/mp4"))];
        }
      } else if StartsWith(name, "OggStdin") {
        if path.Some? {
          made := [OggStream(path.value, OrElse(ctype, "application/ogg"))];
        }
      }
    }

    method OnBlockEnd(name: string) returns (status: Status)
      requires Valid()
      modifies this
      ensures Valid() && repr == old(repr) && (View(), status) == BlockEnd(old(View()), name)
    {
      if blockDict == null {
        return StopErr;
      }
      var made := MakeResources(name, blockDict);
      resources := resources + made;
      blockDict := null;
      return Ok;
    }

    /** dictionary_insert, with the comparison of names that x_tree_insert is meant to make. */
    static method InsertValue(d: D.Dictionary, name: string, value: string)
      requires Good(d)
      modifies d.repr
      ensures Good(d) && fresh(d.repr - old(d.repr)) && d.contents == old(d.contents)[Fold(name) := Some(value)]
    {
      NamesAgree(TreeOf(d.View(), name), name);
      d.Insert(name, Some(value), ByName(name));
    }

    method OnAssign(name: string, value: string)
      requires Valid()
      modifies repr
      ensures Valid() && fresh(repr - old(repr)) && View() == Assign(old(View()), name, value)
    {
      if blockDict != null {
        InsertValue(blockDict, name, value);
        repr := repr + blockDict.repr;
      } else {
        InsertValue(dictionary, name, value);
        repr := repr + dictionary.repr;
      }
    }
  }
}
