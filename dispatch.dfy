/** Command dispatch: resolve the parsed command against the registered
    commands, and the help text shown when no command is given and no ""
    command is registered. */
module Dispatch {
  import opened CliState
  import opened StringOrder
  import CliParsing

  /** The application's identity, as declared by the host program. */
  datatype AppId = AppId(name: string, version: string, shortDesc: string, longDesc: string)

  /** A registered command: its optional short description. Its bound function
      is opaque to this model. */
  datatype CommandSchema = CommandSchema(short: Option<string>)

  datatype Application = Application(id: AppId, commands: map<string, CommandSchema>)

  /** What dispatch does: call the named command's function, print the help
      lines, or raise DispatchError for an unknown name. */
  datatype Outcome =
    | Invoke(name: string)
    | Fallback(help: seq<string>)
    | Unknown(name: string)

  /** A missing command counts as the empty name. */
  function CommandName(command: Option<string>): (name: string)
    ensures name == "" <==> command == None || command == Some("")
    ensures command.Some? ==> name == command.value
  {
    if command.Some? then command.value else ""
  }

  /** dispatch_command: a registered name (including "") is invoked; otherwise
      the empty name falls back to help and any other name is unknown. */
  function DispatchCommand(command: Option<string>, app: Application): (o: Outcome)
    ensures o.Invoke? <==> CommandName(command) in app.commands
    ensures o.Fallback? <==> CommandName(command) == "" && "" !in app.commands
    ensures o.Unknown? <==> CommandName(command) != "" && CommandName(command) !in app.commands
    ensures o.Invoke? || o.Unknown? ==> o.name == CommandName(command)
    ensures o.Fallback? ==> o.help == HelpLines(app)
  {
    var name := CommandName(command);
    if name in app.commands then Invoke(name)
    else if name == "" then Fallback(HelpLines(app))
    else Unknown(name)
  }

  /** dispatch_command as called: the command is read from the CLI state
      record, which this does not change. */
  method DispatchFromState(st: State, app: Application) returns (o: Outcome)
    requires st.Valid()
    ensures o == DispatchCommand(st.Values().command, app)
  {
    var command := st.g[CommandKey];
    o := DispatchCommand(command, app);
  }

  /** The DispatchError text for an unknown command; the name is shown quoted. */
  function UnknownCommandMessage(name: string): (m: string)
    ensures |m| == 19 + |name|
    ensures m[..18] == "Unknown command: '" && m[18..|m| - 1] == name && m[|m| - 1] == '\''
  {
    "Unknown command: '" + name + "'"
  }

  /** A missing command and the command "" are dispatched alike. */
  lemma NoneActsAsEmpty(app: Application)
    ensures DispatchCommand(None, app) == DispatchCommand(Some(""), app)
  {
  }

  /** A registered "" command takes priority over the help fallback. */
  lemma RegisteredDefaultBeatsFallback(command: Option<string>, app: Application)
    requires CommandName(command) == ""
    ensures "" in app.commands ==> DispatchCommand(command, app) == Invoke("")
    ensures "" !in app.commands ==> DispatchCommand(command, app) == Fallback(HelpLines(app))
  {
  }

  // ---- help text ----

  const NameColumn: nat := 20

  /** The header line: name and version, then " - " and the short description
      when there is one. */
  function Header(id: AppId): string
  {
    if id.shortDesc != "" then id.name + " v" + id.version + " - " + id.shortDesc
    else id.name + " v" + id.version
  }

  /** The header always starts with the name and version; it goes on exactly
      when the short description is non-empty, with " - " and that text. */
  lemma HeaderFormat(id: AppId)
    ensures var r := Header(id);
      var n := |id.name| + 2 + |id.version|;
      |r| >= n && r[..n] == id.name + " v" + id.version &&
      (id.shortDesc != "" <==> |r| > n) &&
      (id.shortDesc != "" ==> r[n..] == " - " + id.shortDesc)
  {
    var n := |id.name| + 2 + |id.version|;
    if id.shortDesc != "" {
      assert Header(id) == (id.name + " v" + id.version) + (" - " + id.shortDesc);
    }
  }

  /** Python's `format(name, "20")` for a string: left-aligned, filled with
      spaces up to the width, never truncated. */
  function PadRight(name: string, width: nat): (r: string)
    ensures |r| == if |name| < width then width else |name|
    ensures r[..|name|] == name
    ensures forall i :: |name| <= i < |r| ==> r[i] == ' '
  {
    if |name| < width then name + seq(width - |name|, _ => ' ') else name
  }

  /** One listed command, indented by two spaces; with a short description the
      name is padded to the name column and the description follows a space. */
  function CommandLine(name: string, short: string): string
  {
    if short != "" then "  " + PadRight(name, NameColumn) + " " + short else "  " + name
  }

  /** The columns of a command line: the name starts at column 2; without a
      short description nothing follows it; with one, spaces fill up to
      column 22 (or just past a longer name) and the description follows a
      single space. */
  lemma CommandLineFormat(name: string, short: string)
    ensures var r := CommandLine(name, short);
      |r| >= 2 + |name| && r[..2] == "  " && r[2..2 + |name|] == name &&
      (short == "" ==> |r| == 2 + |name|) &&
      (short != "" ==>
        var col := 2 + (if |name| < NameColumn then NameColumn else |name|);
        |r| == col + 1 + |short| && r[col] == ' ' && r[col + 1..] == short &&
        forall i :: 2 + |name| <= i < col ==> r[i] == ' ')
  {
    var r := CommandLine(name, short);
    if short != "" {
      var p := PadRight(name, NameColumn);
      var col := 2 + |p|;
      assert r == ("  " + p) + (" " + short);
      assert r[..col] == "  " + p;
      assert r[2..2 + |name|] == p[..|name|];
      assert r[col..] == " " + short;
      forall i | 2 + |name| <= i < col
        ensures r[i] == ' '
      {
        assert r[i] == p[i - 2];
      }
    } else {
      assert r == "  " + name;
    }
  }

  /** A missing or empty short description is no description. */
  function ShortOf(c: CommandSchema): (short: string)
    ensures short == "" <==> c.short == None || c.short == Some("")
    ensures c.short.Some? ==> short == c.short.value
  {
    if c.short.Some? then c.short.value else ""
  }

  /** The body of the loop over the sorted commands: one line per name, the
      name "" skipped. */
  function Listing(commands: map<string, CommandSchema>, names: seq<string>): (r: seq<string>)
    requires forall n :: n in names ==> n in commands
    ensures |r| <= |names|
  {
    if names == [] then []
    else
      (if names[0] == "" then [] else [CommandLine(names[0], ShortOf(commands[names[0]]))])
      + Listing(commands, names[1..])
  }

  /** The header and, when it is non-empty, a blank line and the long
      description. */
  function Preamble(id: AppId): (r: seq<string>)
    ensures |r| == if id.longDesc != "" then 3 else 1
    ensures r[0] == Header(id)
    ensures id.longDesc != "" ==> r[1] == "" && r[2] == id.longDesc
  {
    [Header(id)] + (if id.longDesc != "" then ["", id.longDesc] else [])
  }

  /** The commands section: a blank line, then "No commands available." when
      there are no commands at all, or "Commands:" and the listing in sorted
      name order. */
  function CommandSection(commands: map<string, CommandSchema>): (r: seq<string>)
    ensures |r| >= 2 && r[0] == ""
    ensures r[1] == if |commands| > 0 then "Commands:" else "No commands available."
  {
    if |commands| > 0 then ["", "Commands:"] + Listing(commands, SortedKeys(commands.Keys))
    else ["", "No commands available."]
  }

  /** _no_command_fallback, as the lines it prints (print() alone is ""). */
  function HelpLines(app: Application): (r: seq<string>)
    ensures |r| >= 3 && r[0] == Header(app.id)
  {
    Preamble(app.id) + CommandSection(app.commands)
  }

  /** Over names without "", the listing has one line per name. */
  lemma {:induction false} ListingLength(commands: map<string, CommandSchema>, names: seq<string>)
    requires forall n :: n in names ==> n in commands
    requires "" !in names
    ensures |Listing(commands, names)| == |names|
  {
    if names != [] {
      ListingLength(commands, names[1..]);
    }
  }

  /** Over names without "", the `i`-th line of the listing is that of the
      `i`-th name. */
  lemma {:induction false} ListingAt(commands: map<string, CommandSchema>, names: seq<string>, i: int)
    requires forall n :: n in names ==> n in commands
    requires "" !in names
    requires 0 <= i < |names|
    ensures |Listing(commands, names)| == |names|
    ensures Listing(commands, names)[i] == CommandLine(names[i], ShortOf(commands[names[i]]))
    decreases i
  {
    ListingLength(commands, names);
    if i > 0 {
      ListingAt(commands, names[1..], i - 1);
      assert names[1..][i - 1] == names[i];
    }
  }

  /** Over names without "", the listing has one line per name, in order. */
  lemma ListingOfNames(commands: map<string, CommandSchema>, names: seq<string>)
    requires forall n :: n in names ==> n in commands
    requires "" !in names
    ensures |Listing(commands, names)| == |names|
    ensures forall i :: 0 <= i < |names| ==>
      Listing(commands, names)[i] == CommandLine(names[i], ShortOf(commands[names[i]]))
  {
    ListingLength(commands, names);
    forall i | 0 <= i < |names|
      ensures Listing(commands, names)[i] == CommandLine(names[i], ShortOf(commands[names[i]]))
    {
      ListingAt(commands, names, i);
    }
  }

  /** The name "" produces no line. */
  lemma ListingSkipsEmpty(commands: map<string, CommandSchema>, names: seq<string>)
    requires "" in commands
    requires forall n :: n in names ==> n in commands
    ensures Listing(commands, [""] + names) == Listing(commands, names)
  {
    assert ([""] + names)[1..] == names;
  }

  /** Listing all sorted keys is listing the sorted keys other than "". */
  lemma ListingOfSortedKeys(commands: map<string, CommandSchema>)
    ensures Listing(commands, SortedKeys(commands.Keys)) == Listing(commands, SortedKeys(commands.Keys - {""}))
  {
    var keys := commands.Keys;
    if "" in keys {
      SortedKeysWithoutEmpty(keys);
      ListingSkipsEmpty(commands, SortedKeys(keys - {""}));
    } else {
      assert keys - {""} == keys;
    }
  }

  /** With at least one command, the section is a blank line, "Commands:" and
      the listing of the sorted names other than "". */
  lemma SectionEntries(commands: map<string, CommandSchema>)
    requires |commands| > 0
    ensures var listed := SortedKeys(commands.Keys - {""});
      CommandSection(commands) == ["", "Commands:"] + Listing(commands, listed) &&
      |Listing(commands, listed)| == |listed|
  {
    var listed := SortedKeys(commands.Keys - {""});
    ListingOfSortedKeys(commands);
    ListingOfNames(commands, listed);
  }

  /** The line after "Commands:" at offset `i` lists the `i`-th sorted name
      other than "", with its short description. */
  lemma SectionLine(commands: map<string, CommandSchema>, i: int)
    requires |commands| > 0
    requires 0 <= i < |SortedKeys(commands.Keys - {""})|
    ensures var listed := SortedKeys(commands.Keys - {""});
      |CommandSection(commands)| == 2 + |listed| &&
      CommandSection(commands)[2 + i] == CommandLine(listed[i], ShortOf(commands[listed[i]]))
  {
    var listed := SortedKeys(commands.Keys - {""});
    SectionEntries(commands);
    ListingOfNames(commands, listed);
  }

  /** The help text is the preamble followed by the commands section. */
  lemma HelpSplit(app: Application)
    ensures |HelpLines(app)| == |Preamble(app.id)| + |CommandSection(app.commands)|
    ensures forall k :: 0 <= k < |CommandSection(app.commands)| ==>
      HelpLines(app)[|Preamble(app.id)| + k] == CommandSection(app.commands)[k]
  {
  }

  /** The layout of the help text. The header comes first; the long
      description, after a blank line, only when it is non-empty; then a blank
      line and either "No commands available." (no commands at all) or
      "Commands:" followed by one line per command other than "" (see
      HelpEntries). */
  lemma HelpLayout(app: Application)
    ensures var lines := HelpLines(app);
      var o := if app.id.longDesc != "" then 3 else 1;
      |lines| == o + 2 + (if |app.commands| == 0 then 0 else |app.commands.Keys - {""}|) &&
      lines[0] == Header(app.id) &&
      (app.id.longDesc != "" ==> lines[1] == "" && lines[2] == app.id.longDesc) &&
      lines[o] == "" &&
      lines[o + 1] == (if |app.commands| == 0 then "No commands available." else "Commands:")
  {
    HelpSplit(app);
    if |app.commands| > 0 {
      SectionEntries(app.commands);
    }
  }

  /** After the "Commands:" line, the i-th line of the help text lists the
      i-th registered name other than "", in ascending order (see
      HelpListsSortedCommands), with its short description. */
  lemma HelpEntries(app: Application)
    requires |app.commands| > 0
    ensures var lines := HelpLines(app);
      var o := if app.id.longDesc != "" then 3 else 1;
      var listed := SortedKeys(app.commands.Keys - {""});
      |lines| == o + 2 + |listed| &&
      forall i :: 0 <= i < |listed| ==>
        lines[o + 2 + i] == CommandLine(listed[i], ShortOf(app.commands[listed[i]]))
  {
    HelpSplit(app);
    var listed := SortedKeys(app.commands.Keys - {""});
    var o := |Preamble(app.id)|;
    SectionEntries(app.commands);
    forall i | 0 <= i < |listed|
      ensures HelpLines(app)[o + 2 + i] == CommandLine(listed[i], ShortOf(app.commands[listed[i]]))
    {
      SectionLine(app.commands, i);
    }
  }

  /** The commands in the help text are listed in strictly ascending name
      order, each once, and "" is never listed. */
  lemma HelpListsSortedCommands(app: Application)
    ensures var listed := SortedKeys(app.commands.Keys - {""});
      StrictlyAscending(listed) && "" !in listed &&
      forall n :: n in listed <==> n in app.commands && n != ""
  {
    SortedKeysAscending(app.commands.Keys - {""});
  }

  /** With no arguments at all, a registered "" command runs, and otherwise the
      help is shown. */
  lemma NoArgumentsDispatch(app: Application)
    ensures CliParsing.Ingest([]).error == None
    ensures DispatchCommand(CliParsing.Ingest([]).values.command, app) ==
      if "" in app.commands then Invoke("") else Fallback(HelpLines(app))
  {
  }

  /** A single positional token is parsed as the command and dispatched by
      name; the empty token "" behaves like no command at all. */
  lemma SingleCommandDispatch(t: string, app: Application)
    requires CliParsing.IsPositional(t)
    ensures CliParsing.Ingest([t]).error == None
    ensures DispatchCommand(CliParsing.Ingest([t]).values.command, app) ==
      if t in app.commands then Invoke(t)
      else if t == "" then Fallback(HelpLines(app))
      else Unknown(t)
  {
    assert t == "" || t[0] != '-';
    assert !CliParsing.IsLongOption(t) by {
      if |t| >= 2 { assert t[..2][0] == t[0]; }
    }
    assert [t][1..] == [];
    var s := Initial.(command := Some(t));
    assert CliParsing.Scan([t], Initial) == CliParsing.Scan([], s);
    assert CliParsing.Ingest([t]) == CliParsing.Scanned(s, None);
  }
}
