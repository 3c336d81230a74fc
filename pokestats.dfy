/**
 * The query layer of the `Datafile` class: a first-match, case-insensitive
 * lookup over a read-only list of creature records, and the two queries
 * built on it (EV yield and hidden ability) with their rendered answers.
 */
module Pokestats {
  import opened Wrappers
  import opened Text
  import opened Records

  /** The position of the first record whose lower-cased name equals `value`. */
  function FirstMatch(data: seq<Creature>, value: string): (r: Option<nat>)
    ensures r.None? ==> forall j :: 0 <= j < |data| ==> Lower(data[j].name) != value
    ensures r.Some? ==> r.value < |data| && Lower(data[r.value].name) == value
    ensures r.Some? ==> forall j :: 0 <= j < r.value ==> Lower(data[j].name) != value
  {
    if |data| == 0 then None
    else if Lower(data[0].name) == value then Some(0)
    else match FirstMatch(data[1..], value)
      case None => None
      case Some(i) => Some(i + 1)
  }

  /** The answer given when no record matches: the query exactly as typed. */
  function NotFound(pokemon: string): string {
    "Pokémon " + pokemon + " not found"
  }

  const HiddenPrefix: string := "Hidden ability: "

  /** The data file's contents, loaded once and only read afterwards. */
  class Datafile {
    const data: seq<Creature>

    /** A data file over records already loaded (reading the JSON file is not modelled). */
    constructor (data: seq<Creature>)
      ensures this.data == data
    {
      this.data := data;
    }

    /**
     * `get_dict(key="name", value=value)` as a function of the data: a stored
     * record whose lower-cased name is `value`, or nothing when there is none.
     */
    function Lookup(value: string): (r: Option<Creature>)
      ensures r.None? <==> forall j :: 0 <= j < |data| ==> Lower(data[j].name) != value
      ensures r.Some? ==> r.value in data && Lower(r.value.name) == value
      ensures r.Some? ==>
        exists j :: 0 <= j < |data| && Lower(data[j].name) == value &&
          (forall k :: 0 <= k < j ==> Lower(data[k].name) != value) &&
          r.value == data[j]
    {
      match FirstMatch(data, value)
      case None => None
      case Some(i) => Some(data[i])
    }

    /**
     * `get_dict(key="name", value)`: scans the records in order and returns the
     * first whose lower-cased name equals `value`, or nothing.
     */
    method GetDict(value: string) returns (r: Option<Creature>)
      ensures r == Lookup(value)
      ensures r.None? <==> forall j :: 0 <= j < |data| ==> Lower(data[j].name) != value
    {
      var n := 0;
      while n < |data|
        invariant 0 <= n <= |data|
        invariant forall j :: 0 <= j < n ==> Lower(data[j].name) != value
      {
        var i := Lower(data[n].name);
        if i == value {
          return Some(data[n]);
        }
        n := n + 1;
      }
      return None;
    }

    /**
     * `ev_yield(pokemon)`: the yield list of the first record whose name matches
     * `pokemon` in any casing, or nothing.
     */
    function EvYield(pokemon: string): (r: Option<seq<EvValue>>)
      ensures r.None? <==> forall j :: 0 <= j < |data| ==> Lower(data[j].name) != Lower(pokemon)
      ensures r.Some? ==>
        exists j :: 0 <= j < |data| && Lower(data[j].name) == Lower(pokemon) &&
          (forall k :: 0 <= k < j ==> Lower(data[k].name) != Lower(pokemon)) &&
          r.value == data[j].evYield
    {
      match Lookup(Lower(pokemon))
      case None => None
      case Some(rec) => Some(rec.evYield)
    }

    /**
     * What `print_ev_yield(pokemon)` returns: "not found" for a missing record;
     * for a found one, "" exactly when none of its yields is truthy.
     */
    function EvYieldText(pokemon: string): (r: string)
      ensures EvYield(pokemon).None? ==> r == NotFound(pokemon)
      ensures EvYield(pokemon).Some? ==>
        (r == "" <==> forall i :: 0 <= i < 6 ==> !Truthy(EvYield(pokemon).value[i]))
    {
      match EvYield(pokemon)
      case None => NotFound(pokemon)
      case Some(ev) => RenderEmpty(ev); Render(ev)
    }

    /**
     * `print_ev_yield(pokemon)`: adds `"<label>: <value>"` for each truthy yield
     * entry, putting ", " in front only once something has been written.
     */
    method PrintEvYield(pokemon: string) returns (output: string)
      ensures output == EvYieldText(pokemon)
    {
      var rec := GetDict(Lower(pokemon));
      // A found record holds six entries, so the yield list is never the empty list.
      if rec.None? {
        return NotFound(pokemon);
      }
      var ev := rec.value.evYield;
      output := "";
      var n := 0;
      while n < |ev|
        invariant 0 <= n <= |ev|
        invariant output == Join(Entries(ev, n))
      {
        RenderStep(ev, n, output);
        var e := ev[n];
        if e.Num? && e.n != 0 {
          if output != "" {
            output := output + Separator;
          }
          output := output + Entry(n, e.n);
        }
        n := n + 1;
      }
    }

    /**
     * `hidden_ability(pokemon)`: the hidden-ability rule applied to the first
     * record whose name matches `pokemon` in any casing; nothing when none does.
     */
    function HiddenAbility(pokemon: string): (r: Option<string>)
      ensures r.None? <==> forall j :: 0 <= j < |data| ==> Lower(data[j].name) != Lower(pokemon)
      ensures r.Some? ==>
        exists j :: 0 <= j < |data| && Lower(data[j].name) == Lower(pokemon) &&
          (forall k :: 0 <= k < j ==> Lower(data[k].name) != Lower(pokemon)) &&
          r.value == HiddenAbilityOf(data[j].abilities)
    {
      match Lookup(Lower(pokemon))
      case None => None
      case Some(rec) => Some(HiddenAbilityOf(rec.abilities))
    }

    /**
     * `print_hidden_ability(pokemon)`: an empty ability text counts as "not found".
     * The answer starts with `H` ("Hidden ability: ...") exactly when a record is
     * found with a non-empty hidden-ability text, and with `P` ("Pokémon ...") otherwise.
     */
    function PrintHiddenAbility(pokemon: string): (r: string)
      ensures |r| > 0
      ensures r[0] == 'H' <==> HiddenAbility(pokemon).Some? && HiddenAbility(pokemon).value != ""
      ensures r[0] == 'P' <==> !(HiddenAbility(pokemon).Some? && HiddenAbility(pokemon).value != "")
    {
      var h := HiddenAbility(pokemon);
      if h.Some? && h.value != "" then HiddenPrefix + h.value else NotFound(pokemon)
    }
  }

  // -----------------------------------------------------------------------
  // Lookup
  // -----------------------------------------------------------------------

  /** Names that differ only in letter case belong to one record at most. */
  ghost predicate NamesDistinctIgnoringCase(data: seq<Creature>) {
    forall i, j :: 0 <= i < j < |data| ==> Lower(data[i].name) != Lower(data[j].name)
  }

  /**
   * Any casing of a stored name finds a record with that name; the first such
   * record in store order, which is the record itself when names are distinct.
   */
  lemma AnyCasingResolves(d: Datafile, i: nat, query: string)
    requires i < |d.data|
    requires Lower(query) == Lower(d.data[i].name)
    ensures d.Lookup(Lower(query)).Some?
    ensures Lower(d.Lookup(Lower(query)).value.name) == Lower(d.data[i].name)
    ensures NamesDistinctIgnoringCase(d.data) ==> d.Lookup(Lower(query)) == Some(d.data[i])
  {
  }

  /**
   * With names distinct ignoring case, a stored name, its upper-cased form and
   * its lower-cased form all give that record's yield and hidden ability.
   */
  lemma StoredNameCasings(d: Datafile, i: nat)
    requires i < |d.data|
    requires NamesDistinctIgnoringCase(d.data)
    ensures d.EvYield(d.data[i].name) == Some(d.data[i].evYield)
    ensures d.EvYield(Upper(d.data[i].name)) == Some(d.data[i].evYield)
    ensures d.EvYield(Lower(d.data[i].name)) == Some(d.data[i].evYield)
    ensures d.HiddenAbility(d.data[i].name) == Some(HiddenAbilityOf(d.data[i].abilities))
    ensures d.HiddenAbility(Upper(d.data[i].name)) == Some(HiddenAbilityOf(d.data[i].abilities))
    ensures d.HiddenAbility(Lower(d.data[i].name)) == Some(HiddenAbilityOf(d.data[i].abilities))
  {
    var name := d.data[i].name;
    CasingsAgree(name);
    AnyCasingResolves(d, i, name);
    AnyCasingResolves(d, i, Upper(name));
    AnyCasingResolves(d, i, Lower(name));
  }

  // -----------------------------------------------------------------------
  // EV yield
  // -----------------------------------------------------------------------

  /**
   * `print_ev_yield` answers "not found" exactly when no record matches; for a
   * found record the answer splits on ", " into the entries of its truthy yields.
   */
  lemma EvYieldTextCases(d: Datafile, pokemon: string)
    ensures d.EvYieldText(pokemon) == NotFound(pokemon) <==> d.EvYield(pokemon).None?
    ensures d.EvYield(pokemon).Some? && d.EvYieldText(pokemon) != "" ==>
      Split(d.EvYieldText(pokemon)) == Entries(d.EvYield(pokemon).value, 6)
  {
    var ev := d.EvYield(pokemon);
    if ev.Some? {
      var text := Render(ev.value);
      if text != "" {
        RenderStartsWithLabel(ev.value);
        RenderSplits(ev.value);
        assert NotFound(pokemon)[0] == 'P';
      }
    }
  }

  /** A found record whose yields are all zero or null renders as "", not as "not found". */
  lemma AllZeroYieldRendersEmpty(d: Datafile, pokemon: string)
    requires d.EvYield(pokemon).Some?
    requires forall i :: 0 <= i < 6 ==> !Truthy(d.EvYield(pokemon).value[i])
    ensures d.EvYieldText(pokemon) == ""
    ensures d.EvYieldText(pokemon) != NotFound(pokemon)
  {
    RenderEmpty(d.EvYield(pokemon).value);
  }

  // -----------------------------------------------------------------------
  // Hidden ability
  // -----------------------------------------------------------------------

  /**
   * `print_hidden_ability` shows the hidden ability exactly when the record is
   * found and the ability text is non-empty, and answers "not found" otherwise.
   */
  lemma PrintHiddenAbilityCases(d: Datafile, pokemon: string, h: string)
    ensures d.PrintHiddenAbility(pokemon) == HiddenPrefix + h <==>
      d.HiddenAbility(pokemon) == Some(h) && h != ""
    ensures d.PrintHiddenAbility(pokemon) == NotFound(pokemon) <==>
      d.HiddenAbility(pokemon).None? || d.HiddenAbility(pokemon) == Some("")
  {
    var out := d.PrintHiddenAbility(pokemon);
    assert NotFound(pokemon)[0] == 'P' && (HiddenPrefix + h)[0] == 'H';
    if out == HiddenPrefix + h {
      var v := d.HiddenAbility(pokemon).value;
      assert out == HiddenPrefix + v;
      assert h == out[|HiddenPrefix|..] == v;
    }
  }

  /**
   * A found record whose third slot is the empty text, distinct from the other
   * two slots, is reported as "not found".
   */
  lemma EmptyHiddenSlotReadsAsNotFound(d: Datafile, pokemon: string)
    requires d.Lookup(Lower(pokemon)).Some?
    requires d.Lookup(Lower(pokemon)).value.abilities[2] == ""
    requires "" !in d.Lookup(Lower(pokemon)).value.abilities[..2]
    ensures d.HiddenAbility(pokemon) == Some("")
    ensures d.PrintHiddenAbility(pokemon) == NotFound(pokemon)
  {
  }
}
