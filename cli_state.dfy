/** The CLI state record that argv ingestion clears and fills: the dictionary
    `g` with its three well-known keys, and the map of generic option overrides. */
module CliState {

  datatype Option<T> = None | Some(value: T)

  /** The three keys of `g`. */
  const CommandKey: string := "command"
  const OptionsFileKey: string := "options_file"
  const ExecrootKey: string := "execroot_override"
  const FieldKeys: set<string> := {CommandKey, OptionsFileKey, ExecrootKey}

  /** The dictionary `g` as the module first defines it: every field None. */
  const InitialG: map<string, Option<string>> :=
    map[CommandKey := None, OptionsFileKey := None, ExecrootKey := None]

  /** The abstract content of the record: the three fields of `g` and the overrides. */
  datatype CliValues = CliValues(
    command: Option<string>,
    optionsFile: Option<string>,
    execrootOverride: Option<string>,
    overrides: map<string, string>)

  /** The state before any token has been read. */
  const Initial: CliValues := CliValues(None, None, None, map[])

  /** What resetting does to `g`: the three fields are assigned None; any other
      key a caller may have added is kept, and no key is removed. */
  function Cleared(g: map<string, Option<string>>): (r: map<string, Option<string>>)
    ensures r.Keys == g.Keys + FieldKeys
    ensures forall k :: k in FieldKeys ==> r[k] == None
    ensures forall k :: k in g && k !in FieldKeys ==> r[k] == g[k]
  {
    g[CommandKey := None][OptionsFileKey := None][ExecrootKey := None]
  }

  /** Resetting twice is resetting once, and resetting the initial `g` gives it back. */
  lemma ClearedIdempotent(g: map<string, Option<string>>)
    ensures Cleared(Cleared(g)) == Cleared(g)
    ensures Cleared(InitialG) == InitialG
    ensures g.Keys == FieldKeys ==> Cleared(g) == InitialG
  {
    assert Cleared(InitialG).Keys == InitialG.Keys;
  }

  class State {
    var g: map<string, Option<string>>
    var optionOverrides: map<string, string>

    /** `g` holds (at least) its three well-known keys. */
    ghost predicate Valid()
      reads this
    {
      FieldKeys <= g.Keys
    }

    /** The record as a value. */
    function Values(): (v: CliValues)
      reads this
      requires Valid()
      ensures v.overrides == optionOverrides
    {
      CliValues(g[CommandKey], g[OptionsFileKey], g[ExecrootKey], optionOverrides)
    }

    /** The module's initial state: `g` has exactly its three keys, all None,
        and there are no overrides. */
    constructor ()
      ensures Valid() && g == InitialG && g.Keys == FieldKeys
      ensures Values() == Initial
    {
      g := InitialG;
      optionOverrides := map[];
    }

    /** reset_cli_state: the three fields become None and the overrides are
        emptied, whatever they held; the key set of `g` is not changed. */
    method Reset()
      modifies this
      ensures g == Cleared(old(g))
      ensures old(Valid()) ==> g.Keys == old(g.Keys)
      ensures optionOverrides == map[]
      ensures Valid() && Values() == Initial
    {
      g := g[CommandKey := None];
      g := g[OptionsFileKey := None];
      g := g[ExecrootKey := None];
      optionOverrides := map[];
    }
  }
}
