/**
 * Creature records and the two projections the query layer derives from a
 * matched record: the EV-yield text and the hidden ability.
 */
module Records {
  import opened Text

  /** One `ev_yield` entry as it comes out of the JSON data: a number or `null`. */
  datatype EvValue = Null | Num(n: int)

  /** One element of `Datafile.data`: only the keys the queries read. */
  datatype Record = Record(name: string, evYield: seq<EvValue>, abilities: seq<string>)

  /** The stat labels `ev_fields`, position by position with `ev_yield`. */
  const EvFields: seq<string> := ["HP", "Atk", "Def", "SpAtk", "SpDef", "Spd"]

  /** A record as the data file holds it: six yield entries and three ability slots. */
  type Creature = r: Record | |r.evYield| == 6 && |r.abilities| == 3
    witness Record("", [Null, Null, Null, Null, Null, Null], ["", "", ""])

  // ---------------------------------------------------------------------
  // EV yield
  // ---------------------------------------------------------------------

  /** Python truthiness of a yield entry: `null` and `0` are false, every other number true. */
  predicate Truthy(e: EvValue) {
    e.Num? && e.n != 0
  }

  /** The positions below `k` whose entry is truthy, in increasing order. */
  function Shown(ev: seq<EvValue>, k: nat): (r: seq<nat>)
    requires k <= |ev|
    ensures forall j :: 0 <= j < |r| ==> r[j] < k && Truthy(ev[r[j]])
    ensures forall i :: 0 <= i < k && Truthy(ev[i]) ==> i in r
    ensures forall j, j' :: 0 <= j < j' < |r| ==> r[j] < r[j']
  {
    if k == 0 then [] else Shown(ev, k - 1) + (if Truthy(ev[k - 1]) then [k - 1] else [])
  }

  /** `f"{ev_fields[i]}: {v}"`. */
  function Entry(i: nat, v: int): (r: string)
    requires i < |EvFields|
    ensures r != "" && r[0] == EvFields[i][0]
    ensures |r| > |EvFields[i]| && r[..|EvFields[i]|] == EvFields[i]
    ensures ',' !in r
  {
    EvFields[i] + ": " + IntToString(v)
  }

  /** The entries rendered for the first `k` yield positions. */
  function Entries(ev: seq<EvValue>, k: nat): (r: seq<string>)
    requires k <= |ev| <= |EvFields|
  {
    if k == 0 then []
    else Entries(ev, k - 1) + (if Truthy(ev[k - 1]) then [Entry(k - 1, ev[k - 1].n)] else [])
  }

  /**
   * The rendered entries are, in order, `"<label>: <value>"` for exactly the
   * truthy positions.
   */
  lemma {:induction false} EntriesAreShown(ev: seq<EvValue>, k: nat)
    requires k <= |ev| <= |EvFields|
    ensures |Entries(ev, k)| == |Shown(ev, k)|
    ensures forall j :: 0 <= j < |Entries(ev, k)| ==>
      Entries(ev, k)[j] == Entry(Shown(ev, k)[j], ev[Shown(ev, k)[j]].n)
  {
    if k > 0 {
      EntriesAreShown(ev, k - 1);
    }
  }

  /** The text `print_ev_yield` produces for a found record's yield list. */
  function Render(ev: seq<EvValue>): string
    requires |ev| <= |EvFields|
  {
    Join(Entries(ev, |ev|))
  }

  /** One step of the rendering loop: the text for `n + 1` positions from the text for `n`. */
  lemma RenderStep(ev: seq<EvValue>, n: nat, text: string)
    requires n < |ev| <= |EvFields|
    requires text == Join(Entries(ev, n))
    ensures Truthy(ev[n]) ==>
      Join(Entries(ev, n + 1)) == (if text != "" then text + Separator else text) + Entry(n, ev[n].n)
    ensures !Truthy(ev[n]) ==> Join(Entries(ev, n + 1)) == text
  {
    if Truthy(ev[n]) {
      EntriesAreShown(ev, n);
      JoinEmpty(Entries(ev, n));
      JoinSnoc(Entries(ev, n), Entry(n, ev[n].n));
    } else {
      assert Entries(ev, n + 1) == Entries(ev, n);
    }
  }

  /**
   * A found record's yield renders as the empty text exactly when no entry is
   * truthy (an all-zero list gives "", not an error).
   */
  lemma RenderEmpty(ev: seq<EvValue>)
    requires |ev| <= |EvFields|
    ensures Render(ev) == "" <==> forall i :: 0 <= i < |ev| ==> !Truthy(ev[i])
  {
    var parts := Entries(ev, |ev|);
    EntriesAreShown(ev, |ev|);
    JoinEmpty(parts);
    if parts != [] {
      var i := Shown(ev, |ev|)[0];
      assert Truthy(ev[i]);
    }
  }

  /**
   * The rendered yield splits on ", " into exactly the entries: there is no
   * leading, trailing or doubled separator.
   */
  lemma RenderSplits(ev: seq<EvValue>)
    requires |ev| <= |EvFields|
    requires Render(ev) != ""
    ensures Split(Render(ev)) == Entries(ev, |ev|)
  {
    var parts := Entries(ev, |ev|);
    EntriesAreShown(ev, |ev|);
    assert parts != [];
    SplitJoin(parts);
  }

  /** A non-empty rendered yield starts with the first letter of a stat label. */
  lemma RenderStartsWithLabel(ev: seq<EvValue>)
    requires |ev| <= |EvFields|
    requires Render(ev) != ""
    ensures Render(ev)[0] in ['H', 'A', 'D', 'S']
  {
    var parts := Entries(ev, |ev|);
    EntriesAreShown(ev, |ev|);
    JoinEmpty(parts);
    var i := Shown(ev, |ev|)[0];
    assert parts[0][0] == EvFields[i][0];
  }

  // ---------------------------------------------------------------------
  // Hidden ability
  // ---------------------------------------------------------------------

  /**
   * The hidden-ability slot, unless it repeats one of the two earlier slots
   * (the data's way of saying "no hidden ability"), in which case "None".
   */
  function HiddenAbilityOf(abilities: seq<string>): (r: string)
    requires |abilities| == 3
    ensures abilities[2] in abilities[..2] ==> r == "None"
    ensures abilities[2] !in abilities[..2] ==> r == abilities[2]
    ensures r in abilities[..2] ==> r == "None"
  {
    if abilities[2] != abilities[0] && abilities[2] != abilities[1] then abilities[2] else "None"
  }

  // ---------------------------------------------------------------------
  // Worked examples
  // ---------------------------------------------------------------------

  /** A repeated slot means "no hidden ability"; comparison is exact. */
  lemma HiddenAbilityExamples()
    ensures HiddenAbilityOf(["Static", "Static", "Static"]) == "None"
    ensures HiddenAbilityOf(["Static", "Lightning Rod", "Lightning Rod"]) == "None"
    ensures HiddenAbilityOf(["Static", "Lightning Rod", "Intimidate"]) == "Intimidate"
    ensures HiddenAbilityOf(["Static", "Lightning Rod", "static"]) == "static"
  {
  }

  /** A single non-zero yield renders alone, without separators. */
  lemma SingleYieldExample()
    ensures Render([Num(0), Num(0), Num(0), Num(2), Num(0), Num(0)]) == "SpAtk: 2"
  {
    var ev := [Num(0), Num(0), Num(0), Num(2), Num(0), Num(0)];
    assert Entries(ev, 3) == [] by {
      assert Entries(ev, 0) == [];
      assert Entries(ev, 1) == [];
      assert Entries(ev, 2) == [];
    }
    assert Entry(3, 2) == "SpAtk: 2" by {
      assert DigitChar(2) == '2';
      assert EvFields[3] == "SpAtk";
    }
    assert Entries(ev, 4) == ["SpAtk: 2"];
    assert Entries(ev, 5) == ["SpAtk: 2"];
    assert Entries(ev, 6) == ["SpAtk: 2"];
  }

  /** A negative yield is truthy and is listed; null and zero are skipped. */
  lemma NegativeYieldExample()
    ensures Render([Num(-1), Null, Num(0), Num(0), Num(0), Num(3)]) == "HP: -1, Spd: 3"
  {
    var ev := [Num(-1), Null, Num(0), Num(0), Num(0), Num(3)];
    assert Entry(0, -1) == "HP: -1" by {
      assert DigitChar(1) == '1';
      assert IntToString(-1) == "-1";
      assert EvFields[0] == "HP";
    }
    assert Entry(5, 3) == "Spd: 3" by {
      assert DigitChar(3) == '3';
      assert EvFields[5] == "Spd";
    }
    assert Entries(ev, 0) == [];
    assert Entries(ev, 1) == ["HP: -1"];
    assert Entries(ev, 2) == ["HP: -1"];
    assert Entries(ev, 3) == ["HP: -1"];
    assert Entries(ev, 4) == ["HP: -1"];
    assert Entries(ev, 5) == ["HP: -1"];
    assert Entries(ev, 6) == ["HP: -1", "Spd: 3"];
    assert Join(["HP: -1", "Spd: 3"]) == "HP: -1" + Separator + "Spd: 3";
  }
}
