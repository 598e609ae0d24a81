/** Argv ingestion: a left-to-right tokenizer that resets the CLI state record
    and fills it from the command-line tokens. Values are kept as raw strings. */
module CliParsing {
  import opened CliState

  /** The four ways argv can be malformed; each carries the offending token. */
  datatype ParseError =
    | EmptyOptionName                    // the token is exactly "--"
    | MissingValue(option: string)       // "--key" with no token after it
    | ShortOption(token: string)         // "-x": single-dash options are not supported
    | MultiplePositional(token: string)  // a second positional token

  /** The outcome of a scan: the record as it stands when the scan stopped, and
      the error that stopped it, if any. On an error the record keeps what the
      tokens before the bad one wrote. */
  datatype Scanned = Scanned(values: CliValues, error: Option<ParseError>)

  predicate IsLongOption(token: string) { |token| >= 2 && token[..2] == "--" }
  predicate IsShortOption(token: string) { |token| >= 1 && token[0] == '-' && !IsLongOption(token) }
  predicate IsPositional(token: string) { |token| == 0 || token[0] != '-' }

  /** Routes `--key value`: two keys name fields of `g`, every other key is a
      generic override. */
  function SetOption(s: CliValues, key: string, value: string): (r: CliValues)
    ensures r.command == s.command
    ensures s.overrides.Keys <= r.overrides.Keys
  {
    if key == "execroot" then s.(execrootOverride := Some(value))
    else if key == "options-file" then s.(optionsFile := Some(value))
    else s.(overrides := s.overrides[key := value])
  }

  /** The tokenizer on the tokens not yet read, from the record `s`. A command
      has been seen exactly when `s.command` is set. */
  function Scan(rest: seq<string>, s: CliValues): (r: Scanned)
    ensures s.command.Some? ==> r.values.command == s.command
    ensures s.overrides.Keys <= r.values.overrides.Keys
    decreases |rest|
  {
    if rest == [] then Scanned(s, None)
    else
      var token := rest[0];
      if IsLongOption(token) then
        var key := token[2..];
        if key == "" then Scanned(s, Some(EmptyOptionName))
        else if |rest| < 2 then Scanned(s, Some(MissingValue(token)))
        else Scan(rest[2..], SetOption(s, key, rest[1]))
      else if IsShortOption(token) then Scanned(s, Some(ShortOption(token)))
      else if s.command.Some? then Scanned(s, Some(MultiplePositional(token)))
      else Scan(rest[1..], s.(command := Some(token)))
  }

  /** What ingesting `argv` leaves behind: scanning starts from the reset record,
      so nothing from an earlier parse survives. */
  function Ingest(argv: seq<string>): (r: Scanned)
    ensures argv == [] ==> r == Scanned(Initial, None)
  {
    Scan(argv, Initial)
  }

  /** The text of the ValueError raised for each error. The leading word of
      each text is a literal of its own, because the verifier cannot read the
      first characters of a long string literal. */
  function Message(e: ParseError): string
  {
    match e
    case EmptyOptionName => "Empty" + " option name: '--' is not valid"
    case MissingValue(option) => "Option" + (" '" + option + "' requires a value")
    case ShortOption(token) => "Short" + (" options not supported: '" + token + "'")
    case MultiplePositional(token) => "Multiple" + (" positional arguments not supported: '" + token + "'")
  }

  /** Distinct errors have distinct messages: the text identifies the error kind
      and the offending token. */
  lemma MessageInjective(e1: ParseError, e2: ParseError)
    requires Message(e1) == Message(e2)
    ensures e1 == e2
  {
    var m := Message(e1);
    FirstLetter(e1);
    FirstLetter(e2);
    match e1
    case EmptyOptionName =>
    case MissingValue(t1) =>
      var t2 := e2.option;
      assert |t1| == |t2|;
      assert t1 == m[8..8 + |t1|] == t2;
    case ShortOption(t1) =>
      var t2 := e2.token;
      assert |t1| == |t2|;
      assert t1 == m[30..30 + |t1|] == t2;
    case MultiplePositional(t1) =>
      var t2 := e2.token;
      assert |t1| == |t2|;
      assert t1 == m[46..46 + |t1|] == t2;
  }

  /** Each kind of message begins with its own letter. */
  lemma FirstLetter(e: ParseError)
    ensures |Message(e)| > 0
    ensures e.EmptyOptionName? ==> Message(e)[0] == 'E'
    ensures e.MissingValue? ==> Message(e)[0] == 'O'
    ensures e.ShortOption? ==> Message(e)[0] == 'S'
    ensures e.MultiplePositional? ==> Message(e)[0] == 'M'
  {
    match e
    case EmptyOptionName =>
      Lead("Empty", " option name: '--' is not valid");
    case MissingValue(t) =>
      Lead("Option", " '" + t + "' requires a value");
    case ShortOption(t) =>
      Lead("Short", " options not supported: '" + t + "'");
    case MultiplePositional(t) =>
      Lead("Multiple", " positional arguments not supported: '" + t + "'");
  }

  /** A concatenation begins with the first character of its first part. */
  lemma Lead(p: string, q: string)
    requires |p| > 0
    ensures |p + q| > 0 && (p + q)[0] == p[0]
  {
  }

  /** ingest_argv: reset the record, then read argv left to right. On an error
      the record keeps what the earlier tokens wrote and the error is returned. */
  method IngestArgv(st: State, argv: seq<string>) returns (err: Option<ParseError>)
    modifies st
    ensures st.Valid()
    ensures st.Values() == Ingest(argv).values
    ensures err == Ingest(argv).error
    ensures st.g.Keys == old(st.g.Keys) + FieldKeys
    ensures forall k :: k in old(st.g) && k !in FieldKeys ==> st.g[k] == old(st.g[k])
  {
    st.Reset();
    var i := 0;
    var commandSeen := false;
    while i < |argv|
      invariant 0 <= i <= |argv|
      invariant st.Valid()
      invariant commandSeen == st.g[CommandKey].Some?
      invariant Scan(argv[i..], st.Values()) == Ingest(argv)
      invariant st.g.Keys == old(st.g.Keys) + FieldKeys
      invariant forall k :: k in old(st.g) && k !in FieldKeys ==> st.g[k] == old(st.g[k])
      decreases |argv| - i
    {
      var token := argv[i];
      assert argv[i..][0] == token;
      if |token| >= 2 && token[..2] == "--" {
        var key := token[2..];
        if key == "" {
          return Some(EmptyOptionName);
        }
        if i + 1 >= |argv| {
          return Some(MissingValue(token));
        }
        var value := argv[i + 1];
        assert argv[i..][1] == value && argv[i..][2..] == argv[i + 2..];
        if key == "execroot" {
          st.g := st.g[ExecrootKey := Some(value)];
        } else if key == "options-file" {
          st.g := st.g[OptionsFileKey := Some(value)];
        } else {
          st.optionOverrides := st.optionOverrides[key := value];
        }
        i := i + 2;
      } else if |token| >= 1 && token[0] == '-' {
        return Some(ShortOption(token));
      } else {
        if commandSeen {
          return Some(MultiplePositional(token));
        }
        assert argv[i..][1..] == argv[i + 1..];
        st.g := st.g[CommandKey := Some(token)];
        commandSeen := true;
        i := i + 1;
      }
    }
    return None;
  }

  /** Reading a prefix that ends without error and then the remaining tokens is
      the same as reading the whole list: the cursor stops exactly at the end of
      the prefix. */
  lemma {:induction false} ScanAppend(a: seq<string>, b: seq<string>, s: CliValues)
    requires Scan(a, s).error == None
    ensures Scan(a + b, s) == Scan(b, Scan(a, s).values)
    decreases |a|
  {
    if a == [] {
      assert a + b == b;
    } else {
      var token := a[0];
      assert (a + b)[0] == token;
      if IsLongOption(token) {
        assert (a + b)[1] == a[1];
        assert (a + b)[2..] == a[2..] + b;
        ScanAppend(a[2..], b, SetOption(s, token[2..], a[1]));
      } else {
        assert (a + b)[1..] == a[1..] + b;
        ScanAppend(a[1..], b, s.(command := Some(token)));
      }
    }
  }

  /** After a cleanly read prefix, a bare "--" stops the parse with
      EmptyOptionName, whatever follows; the record keeps what the prefix wrote. */
  lemma EmptyOptionNameStops(a: seq<string>, b: seq<string>)
    requires Ingest(a).error == None
    ensures Ingest(a + ["--"] + b) == Scanned(Ingest(a).values, Some(EmptyOptionName))
  {
    assert a + ["--"] + b == a + (["--"] + b);
    ScanAppend(a, ["--"] + b, Initial);
  }

  /** An option token in the last position has no value: MissingValue. */
  lemma MissingValueStops(a: seq<string>, key: string)
    requires Ingest(a).error == None
    requires key != ""
    ensures Ingest(a + ["--" + key]) == Scanned(Ingest(a).values, Some(MissingValue("--" + key)))
  {
    var token := "--" + key;
    assert token[..2] == "--" && token[2..] == key;
    ScanAppend(a, [token], Initial);
  }

  /** A single-dash token that is not "--..." is rejected as a short option. */
  lemma ShortOptionStops(a: seq<string>, t: string, b: seq<string>)
    requires Ingest(a).error == None
    requires IsShortOption(t)
    ensures Ingest(a + [t] + b) == Scanned(Ingest(a).values, Some(ShortOption(t)))
  {
    assert a + [t] + b == a + ([t] + b);
    ScanAppend(a, [t] + b, Initial);
  }

  /** Once a command has been read, any further positional token is rejected. */
  lemma SecondPositionalStops(a: seq<string>, t: string, b: seq<string>)
    requires Ingest(a).error == None
    requires Ingest(a).values.command.Some?
    requires IsPositional(t)
    ensures Ingest(a + [t] + b) == Scanned(Ingest(a).values, Some(MultiplePositional(t)))
  {
    assert a + [t] + b == a + ([t] + b);
    ScanAppend(a, [t] + b, Initial);
  }

  /** The first positional token becomes the command, and reading resumes
      with the very next token. */
  lemma FirstPositionalIsCommand(a: seq<string>, t: string, b: seq<string>)
    requires Ingest(a).error == None
    requires Ingest(a).values.command == None
    requires IsPositional(t)
    ensures Ingest(a + [t] + b) == Scan(b, Ingest(a).values.(command := Some(t)))
  {
    assert a + [t] + b == a + ([t] + b);
    ScanAppend(a, [t] + b, Initial);
    assert ([t] + b)[1..] == b;
  }

  /** `--key v` takes the next token verbatim as its value, whatever it looks
      like (it may start with "-"), and reading resumes two tokens later. */
  lemma OptionTakesNextToken(a: seq<string>, key: string, v: string, b: seq<string>)
    requires Ingest(a).error == None
    requires key != ""
    ensures Ingest(a + ["--" + key, v] + b) == Scan(b, SetOption(Ingest(a).values, key, v))
  {
    var token := "--" + key;
    assert token[..2] == "--" && token[2..] == key;
    assert a + [token, v] + b == a + ([token, v] + b);
    ScanAppend(a, [token, v] + b, Initial);
    assert ([token, v] + b)[2..] == b;
  }

  /** Where `--key v` lands: `--execroot` sets only execroot_override,
      `--options-file` sets only options_file, and any other key sets only the
      override for that key, replacing an earlier value for the same key. */
  lemma OptionRouting(a: seq<string>, key: string, v: string)
    requires Ingest(a).error == None
    requires key != ""
    ensures var s := Ingest(a).values;
      Ingest(a + ["--" + key, v]) == Scanned(
        if key == "execroot" then s.(execrootOverride := Some(v))
        else if key == "options-file" then s.(optionsFile := Some(v))
        else s.(overrides := s.overrides[key := v]),
        None)
  {
    OptionTakesNextToken(a, key, v, []);
    assert a + ["--" + key, v] + [] == a + ["--" + key, v];
  }

  /** Options may come before or after the command with the same result. */
  lemma OptionsCommuteWithCommand(a: seq<string>, t: string, key: string, v: string, b: seq<string>)
    requires Ingest(a).error == None
    requires Ingest(a).values.command == None
    requires IsPositional(t)
    requires key != ""
    ensures Ingest(a + [t, "--" + key, v] + b) == Ingest(a + ["--" + key, v, t] + b)
  {
    var s := Ingest(a).values;
    var opt := "--" + key;
    FirstPositionalIsCommand(a, t, []);
    assert a + [t] + [] == a + [t];
    assert a + [t, opt, v] + b == (a + [t]) + [opt, v] + b;
    OptionTakesNextToken(a + [t], key, v, b);
    OptionTakesNextToken(a, key, v, []);
    assert a + [opt, v] + [] == a + [opt, v];
    assert a + [opt, v, t] + b == (a + [opt, v]) + [t] + b;
    FirstPositionalIsCommand(a + [opt, v], t, b);
  }

  /** Every override in the result was read from the tokens as `--key value`
      (or was already in the starting record), and never under the two keys
      that name fields of `g`. */
  lemma {:induction false} ScanOverrideSource(rest: seq<string>, s: CliValues, k: string)
    requires k in Scan(rest, s).values.overrides
    ensures var v := Scan(rest, s).values.overrides[k];
      (k in s.overrides && v == s.overrides[k]) ||
      (k != "" && k != "execroot" && k != "options-file" &&
       exists i :: 0 <= i < |rest| - 1 && rest[i] == "--" + k && rest[i + 1] == v)
    decreases |rest|
  {
    if rest != [] {
      var token := rest[0];
      var v := Scan(rest, s).values.overrides[k];
      if IsLongOption(token) && token[2..] != "" && |rest| >= 2 {
        var key := token[2..];
        ScanOverrideSource(rest[2..], SetOption(s, key, rest[1]), k);
        assert token == "--" + key;
        if exists i :: 0 <= i < |rest[2..]| - 1 && rest[2..][i] == "--" + k && rest[2..][i + 1] == v {
          var i :| 0 <= i < |rest[2..]| - 1 && rest[2..][i] == "--" + k && rest[2..][i + 1] == v;
          assert rest[i + 2] == "--" + k && rest[i + 3] == v;
        } else if k == key && key != "execroot" && key != "options-file" {
          assert rest[0] == "--" + k && rest[1] == v;
        }
      } else if !IsLongOption(token) && !IsShortOption(token) && s.command.None? {
        ScanOverrideSource(rest[1..], s.(command := Some(token)), k);
        if exists i :: 0 <= i < |rest[1..]| - 1 && rest[1..][i] == "--" + k && rest[1..][i + 1] == v {
          var i :| 0 <= i < |rest[1..]| - 1 && rest[1..][i] == "--" + k && rest[1..][i + 1] == v;
          assert rest[i + 1] == "--" + k && rest[i + 2] == v;
        }
      }
    }
  }

  /** The command in the result is a positional token of the list (or was
      already in the starting record). */
  lemma {:induction false} ScanCommandSource(rest: seq<string>, s: CliValues)
    requires Scan(rest, s).values.command.Some?
    ensures var c := Scan(rest, s).values.command;
      c == s.command || (IsPositional(c.value) && c.value in rest)
    decreases |rest|
  {
    if rest != [] {
      var token := rest[0];
      if IsLongOption(token) && token[2..] != "" && |rest| >= 2 {
        ScanCommandSource(rest[2..], SetOption(s, token[2..], rest[1]));
      } else if !IsLongOption(token) && !IsShortOption(token) && s.command.None? {
        ScanCommandSource(rest[1..], s.(command := Some(token)));
      }
    }
  }

  /** After ingesting argv, the command and every override come from argv. */
  lemma IngestSources(argv: seq<string>)
    ensures var v := Ingest(argv).values;
      (v.command.Some? ==> IsPositional(v.command.value) && v.command.value in argv) &&
      (forall k :: k in v.overrides ==>
        k != "" && k != "execroot" && k != "options-file" &&
        exists i :: 0 <= i < |argv| - 1 && argv[i] == "--" + k && argv[i + 1] == v.overrides[k])
  {
    var v := Ingest(argv).values;
    if v.command.Some? {
      ScanCommandSource(argv, Initial);
    }
    forall k | k in v.overrides
      ensures k != "" && k != "execroot" && k != "options-file" &&
        exists i :: 0 <= i < |argv| - 1 && argv[i] == "--" + k && argv[i + 1] == v.overrides[k]
    {
      ScanOverrideSource(argv, Initial, k);
    }
  }
}
