# lionscliapp CLI front half, modelled in Dafny

lionscliapp is a Python framework for command-line applications. A host
program declares an application (name, version, descriptions) and a set of
commands, then hands control to the framework. This project models the front
half of that pipeline:

- **argv ingestion** (`CliParsing`): `ingest_argv` resets the CLI state record,
  then reads the tokens left to right. `--key value` pairs are routed to
  `execroot_override`, `options_file` or the generic overrides. One positional
  token becomes the command. Four malformed inputs raise an error: a bare
  `--`, an option with no value, a single-dash token, and a second positional
  token.
- **the CLI state record** (`CliState`): the dictionary `g` with its three
  fields (`command`, `options_file`, `execroot_override`), the map of option
  overrides, and `reset_cli_state`. It is a class, because the source updates
  it in place.
- **dispatch** (`Dispatch`): `dispatch_command` chooses between invoking a
  registered command, showing the help text, and raising `DispatchError`.
  `_no_command_fallback` is modelled as the list of strings it passes to
  `print`, one element per call.
- **string order** (`StringOrder`): the order Python's `sorted` puts command
  names in. This is code-point lexicographic order, where a proper prefix
  comes first.

The parser method `CliParsing.IngestArgv` has the source's `while` loop, its
index `i` and its `command_seen` flag. It is proved against the recursive
specification `CliParsing.Scan`, which reads the tokens not yet consumed. The
loop invariant says that scanning the rest of argv from the current record
gives the result for the whole of argv. The invariant also says that
`command_seen` holds exactly when `command` is set. Every other parser
property is proved as a lemma about `Scan` and `Ingest`.

On an error the source raises in the middle of the loop, and the record keeps
what the earlier tokens wrote. The model keeps that too: a `Scanned` value holds
both the record as it stands and the error, if any.

**One overrides map.** `cli_parsing.py` clears and fills
`override_inputs.cli_overrides` (lines 34 and 59). `reset_cli_state`, however,
clears `cli_state.option_overrides` (cli_state.py:17), and the tests read
`cli_state.option_overrides` after parsing. The module `override_inputs` is not
part of this model. The model assumes both names refer to one map, which the
state record owns: `CliState.State.optionOverrides`. `Reset` clears it and
`IngestArgv` writes it.

## Model

| member | source | states |
|---|---|---|
| `CliState.Cleared` | src/lionscliapp/cli_state.py:13-16 | resetting `g` sets the three fields to None, keeps every other key with its value, and adds no key beyond the three |
| `CliState.ClearedIdempotent` | src/lionscliapp/cli_state.py:4-16 | resetting twice is the same as resetting once; resetting the initial `g` gives it back; any `g` with exactly the three keys resets to the initial `g` |
| `CliState.State.constructor` | src/lionscliapp/cli_state.py:4-10 | the initial record has exactly the three keys, all None, and no overrides |
| `CliState.State.Reset` | src/lionscliapp/cli_state.py:13-17 | afterwards the three fields are None and the overrides are empty, whatever they held; the key set of `g` does not change |
| `CliParsing.SetOption` | src/lionscliapp/cli_parsing.py:54-59 | an option never changes the command and never removes an override; which field it sets is stated by `OptionRouting` |
| `CliParsing.Scan` | src/lionscliapp/cli_parsing.py:39-75 | the loop on the tokens not yet read: once set, the command is never overwritten, and no override is ever removed; its branches are pinned down by the lemmas below |
| `CliParsing.Ingest` | src/lionscliapp/cli_parsing.py:33-39 | parsing starts from the reset record; an empty argv leaves every field None, no overrides and no error |
| `CliParsing.IngestArgv` | src/lionscliapp/cli_parsing.py:16-75 | the loop leaves the record and the error the specification `Scan` gives for argv, whatever the record held before; keys of `g` other than the three are untouched |
| `CliParsing.Message` | src/lionscliapp/cli_parsing.py:47-72 | the four ValueError texts, with the offending token quoted; `FirstLetter` and `MessageInjective` show that each text identifies its error |
| `CliParsing.MessageInjective` | src/lionscliapp/cli_parsing.py:47-72 | the four ValueError texts are pairwise distinct, and each one determines the offending token |
| `CliParsing.FirstLetter` | src/lionscliapp/cli_parsing.py:47-72 | each kind of error message begins with its own letter |
| `CliParsing.ScanAppend` | src/lionscliapp/cli_parsing.py:39-75 | if a prefix parses without error, the cursor stops exactly at its end, so parsing prefix-then-rest is parsing the whole list |
| `CliParsing.EmptyOptionNameStops` | src/lionscliapp/cli_parsing.py:42-47 | a bare `--` stops the parse with "Empty option name", whatever follows it |
| `CliParsing.MissingValueStops` | src/lionscliapp/cli_parsing.py:49-50 | a `--key` token in the last position fails with "requires a value" |
| `CliParsing.ShortOptionStops` | src/lionscliapp/cli_parsing.py:63-65 | a token starting with one `-` but not `--` fails with "Short options not supported" |
| `CliParsing.SecondPositionalStops` | src/lionscliapp/cli_parsing.py:67-72 | once a command has been read, any further positional token fails with "Multiple positional arguments" |
| `CliParsing.FirstPositionalIsCommand` | src/lionscliapp/cli_parsing.py:67-75 | the first positional token becomes `command`, and the cursor advances by exactly one |
| `CliParsing.OptionTakesNextToken` | src/lionscliapp/cli_parsing.py:52-61 | an option's value is the next token verbatim, even if it starts with `-`, and the cursor advances by exactly two |
| `CliParsing.OptionRouting` | src/lionscliapp/cli_parsing.py:54-59 | `--execroot v` sets only `execroot_override`; `--options-file v` sets only `options_file`; any other `--key v` sets only `overrides[key]`; a repeated key keeps the last value |
| `CliParsing.OptionsCommuteWithCommand` | src/lionscliapp/cli_parsing.py:39-75 | an option gives the same result before or after the command |
| `CliParsing.ScanOverrideSource` | src/lionscliapp/cli_parsing.py:54-59 | every override in a scan's result came from a `--key value` pair of the tokens, or was already in the starting record |
| `CliParsing.ScanCommandSource` | src/lionscliapp/cli_parsing.py:67-74 | the command in a scan's result is a positional token of the list, or was already in the starting record |
| `CliParsing.IngestSources` | src/lionscliapp/cli_parsing.py:54-74 | after ingestion the command is a positional token of argv; each override key is non-empty, is neither `execroot` nor `options-file`, and its value follows `--key` in argv |
| `Dispatch.CommandName` | src/lionscliapp/dispatch.py:43-45 | a missing command and the empty command both give the name ""; any other command is its own name |
| `Dispatch.DispatchCommand` | src/lionscliapp/dispatch.py:41-60 | exactly one outcome: a registered name (including "") is invoked; the empty name, when "" is not registered, shows the help; any other name is unknown |
| `Dispatch.DispatchFromState` | src/lionscliapp/dispatch.py:41-45 | dispatch reads the command from the state record's `g` |
| `Dispatch.UnknownCommandMessage` | src/lionscliapp/dispatch.py:60 | the DispatchError text is "Unknown command: " followed by the quoted name |
| `Dispatch.NoneActsAsEmpty` | src/lionscliapp/dispatch.py:43-45 | a missing command is dispatched exactly like `""` |
| `Dispatch.RegisteredDefaultBeatsFallback` | src/lionscliapp/dispatch.py:50-57 | a registered `""` command takes priority over the help fallback |
| `Dispatch.Header` | src/lionscliapp/dispatch.py:82-86 | the header line; its format is stated by `HeaderFormat` |
| `Dispatch.HeaderFormat` | src/lionscliapp/dispatch.py:82-86 | the header always starts with `name v{version}`; it is longer exactly when the short description is non-empty, and then continues with " - " and that description |
| `Dispatch.PadRight` | src/lionscliapp/dispatch.py:103 | the padded name keeps the name, is filled with spaces up to the width, and is never truncated |
| `Dispatch.CommandLine` | src/lionscliapp/dispatch.py:101-105 | one command line; its columns are stated by `CommandLineFormat` |
| `Dispatch.ShortOf` | src/lionscliapp/dispatch.py:101 | a missing, None or empty `short` gives ""; any other `short` is kept as it is |
| `Dispatch.CommandLineFormat` | src/lionscliapp/dispatch.py:101-105 | a command line is indented by two spaces; with a short description, the name is padded to 20 columns and the description follows one space; without one, the line is just the indented name |
| `Dispatch.Preamble` | src/lionscliapp/dispatch.py:82-91 | the header comes first, and the long description follows a blank line only when it is non-empty |
| `Dispatch.Listing` | src/lionscliapp/dispatch.py:98-105 | the loop over the sorted names prints at most one line per name; `ListingLength`, `ListingAt` and `ListingSkipsEmpty` say which |
| `Dispatch.CommandSection` | src/lionscliapp/dispatch.py:93-108 | the commands part starts with a blank line, then "Commands:" when the table is non-empty and "No commands available." when it is empty |
| `Dispatch.HelpLines` | src/lionscliapp/dispatch.py:63-108 | `_no_command_fallback`: at least three print calls, the header first; the full layout is stated by `HelpLayout` and `HelpEntries` |
| `Dispatch.ListingLength` | src/lionscliapp/dispatch.py:98-105 | over names without "", the listing has exactly one line per name |
| `Dispatch.ListingAt` | src/lionscliapp/dispatch.py:98-105 | over names without "", the `i`-th line is the command line of the `i`-th name |
| `Dispatch.ListingOfNames` | src/lionscliapp/dispatch.py:98-105 | over names without "", the listing has exactly one line per name, in the same order |
| `Dispatch.ListingSkipsEmpty` | src/lionscliapp/dispatch.py:99-100 | the name "" produces no line |
| `Dispatch.ListingOfSortedKeys` | src/lionscliapp/dispatch.py:98-100 | listing all sorted names is listing the sorted names other than "" |
| `Dispatch.SectionEntries` | src/lionscliapp/dispatch.py:94-105 | with at least one command, the section is a blank line, "Commands:", and the listing of the sorted names other than "", one line per name |
| `Dispatch.SectionLine` | src/lionscliapp/dispatch.py:95-105 | the line at offset `i` after "Commands:" lists the `i`-th sorted name other than "", with its short description |
| `Dispatch.HelpSplit` | src/lionscliapp/dispatch.py:82-108 | the help text is the header part followed, line for line, by the commands section |
| `Dispatch.HelpLayout` | src/lionscliapp/dispatch.py:82-108 | the line layout of the help text: the header first, the long description after a blank line only when non-empty, then a blank line and "No commands available." for an empty table or "Commands:"; its length counts one line per name other than "" |
| `Dispatch.HelpEntries` | src/lionscliapp/dispatch.py:94-105 | with at least one command, each line after "Commands:" lists the next sorted name other than "" with its short description, and nothing follows the last one |
| `Dispatch.HelpListsSortedCommands` | src/lionscliapp/dispatch.py:98-100 | the listed names are strictly ascending, each appears once, and they are exactly the registered names other than "" |
| `Dispatch.NoArgumentsDispatch` | src/lionscliapp/dispatch.py:43-57 | with an empty argv, a registered "" command runs, and otherwise the help is shown |
| `Dispatch.SingleCommandDispatch` | src/lionscliapp/dispatch.py:43-60 | a single positional token is dispatched by name; the empty token "" behaves like no command at all |
| `StringOrder.Below` | src/lionscliapp/dispatch.py:98 | the order `sorted` uses on strings: by code point, a proper prefix first; the lemmas below show it is a total order |
| `StringOrder.BelowReflexive` | src/lionscliapp/dispatch.py:98 | the string order used by `sorted` is reflexive |
| `StringOrder.BelowAntisymmetric` | src/lionscliapp/dispatch.py:98 | the order is antisymmetric |
| `StringOrder.BelowTransitive` | src/lionscliapp/dispatch.py:98 | the order is transitive |
| `StringOrder.BelowTotal` | src/lionscliapp/dispatch.py:98 | any two strings are comparable |
| `StringOrder.LeastExists` | src/lionscliapp/dispatch.py:98 | every non-empty set of names has a least element |
| `StringOrder.Least` | src/lionscliapp/dispatch.py:98 | the chosen name is in the set and sorts no later than any other |
| `StringOrder.SortedKeys` | src/lionscliapp/dispatch.py:98 | `sorted` over a dictionary's keys yields exactly the keys, as many entries as keys |
| `StringOrder.SortedKeysAscending` | src/lionscliapp/dispatch.py:98 | the sorted keys are strictly ascending, so no key appears twice |
| `StringOrder.SortedKeysWithoutEmpty` | src/lionscliapp/dispatch.py:98-100 | "" sorts first when it is a key, and the rest is the sorted list of the other keys |

## Left out

- The call `fn()` of the resolved command (dispatch.py:51-52): command functions are opaque host callables. The outcome is `Invoke(name)`.
- The return value of `dispatch_command`, which is whatever `fn()` returns, or None after the help fallback.
- `print`: `_no_command_fallback` is modelled as the sequence of strings it passes to `print`, one element per call. A bare `print()` is the empty string.
- `Dispatch.HelpLines`: one element is one `print()` call, not one line of output. A short or long description containing a newline prints as several lines, so the lengths and line positions stated by `Dispatch.HelpLayout` and `Dispatch.HelpEntries` count calls.
- A short or long description that is None in the application record is represented as `""`. Both are falsy, so the help text is the same.
- Strings are sequences of Dafny `char`, which cannot hold the lone surrogates that Python's argv may contain under `surrogateescape` decoding. Such tokens are not modelled.
- `DispatchError` and `ValueError` as exceptions: they are the `Unknown` outcome and the `ParseError` value.
- `Dispatch.UnknownCommandMessage`: does not model Python's `repr` in full. It always uses single quotes and does not escape the name, so it is exact only for names without quotes, backslashes or non-printable characters.
- The exit-code table in the dispatch module's docstring (dispatch.py:13-16): no shown code implements it.
- Version strings and descriptions are taken to be strings. Python would format any value with `str()`.
- A command schema's `short` field counts as absent when it is missing, None or "". Other falsy values that `or ""` would also drop are not modelled.
- The modules `override_inputs`, `application`, `runtime_state`, `resolve_execroot` and `declarations` are not part of this model. This covers the application registry and its validation, the lifecycle phases, execroot discovery, JSON config loading, and the `ctx` build with its layered merge and namespace coercion.
- `entrypoint.main` and the package's `reset`: each is only a sequence of calls into those modules.
