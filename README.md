# pokestats query layer in Dafny

`pokestats` is a command-line tool that answers two questions about creatures
in a static JSON data set: the effort-value (EV) yield and the hidden ability.
This project models the query layer of its `Datafile` class: the read-only
list of creature records, the case-insensitive first-match lookup
`get_dict`, and the queries built on it (`ev_yield`, `print_ev_yield`,
`hidden_ability`, `print_hidden_ability`). It proves what these return for
every input.

Files:

- `wrappers.dfy` (module `Wrappers`): `Option`, which stands for Python's `None`.
- `text.dfy` (module `Text`): the Python string built-ins the queries use.
  `str.lower` is `Lower` (ASCII letters). `f"{n}"` is `IntToString`, with
  `ParseInt` as its inverse. Building text with `", "` is `Join`, with `Split`
  as its inverse.
- `records.dfy` (module `Records`): a record (`name`, `ev_yield`, `abilities`).
  `Creature` is a record with six yield entries and three ability slots. The
  module also holds the `ev_fields` labels (`EvFields`), the truthy-yield
  filter (`Shown`), the rendered entries (`Entries`, `Render`) and the
  hidden-ability rule (`HiddenAbilityOf`).
- `pokestats.dfy` (module `Pokestats`): class `Datafile`. Its `data` is a
  `const` sequence of creatures. `GetDict` and `PrintEvYield` are methods with
  loops, as in the source. `ev_yield`, `hidden_ability` and
  `print_hidden_ability` are functions of the class: `EvYield`,
  `HiddenAbility` and `PrintHiddenAbility`. `EvYieldText` specifies
  `print_ev_yield`, and `Lookup` specifies `get_dict`. The module also holds
  the end-to-end lemmas.

Nothing can change `data`, because it is a `const` and no method declares a
`modifies` clause. So every lookup and query leaves the record store as it
was.

`print_ev_yield` tests Python truthiness (`if ev:`). So every non-zero
number is shown, negative ones included, and `0` and `null` are skipped
(`Truthy`; see `NegativeYieldExample`).

## Model

| member | source | states |
|---|---|---|
| `Pokestats.FirstMatch` | pokestats.py:98-105 | gives the smallest index whose lower-cased name equals the value; gives nothing only when no record matches |
| `Pokestats.Datafile.Lookup` | pokestats.py:91-105 | gives nothing iff no lower-cased name equals the value; otherwise gives the first stored record whose lower-cased name equals it |
| `Pokestats.Datafile.GetDict` | pokestats.py:91-105 | the in-order scan with early return gives exactly the first matching record; it gives `None` iff no lower-cased name equals the value |
| `Pokestats.Datafile.constructor` | pokestats.py:20-23 | the data file holds the given records, already loaded |
| `Pokestats.AnyCasingResolves` | pokestats.py:110 | a query that matches a stored name in any casing finds a record with that lower-cased name; with case-insensitively distinct names, it finds that very record |
| `Pokestats.Datafile.EvYield` | pokestats.py:107-111 | gives nothing iff no lower-cased name equals the lower-cased query; otherwise gives the yield list of the first record whose name matches it |
| `Pokestats.StoredNameCasings` | pokestats.py:133 | when names are distinct ignoring case, a stored name, its upper-cased form and its lower-cased form all give that record's yield and that record's hidden ability |
| `Text.Lower` | pokestats.py:101 | lower-casing keeps the length and lower-cases each character on its own (ASCII) |
| `Text.CasingsAgree` | pokestats.py:110 | lower-casing is idempotent, and upper-cased text lower-cases to the same result |
| `Pokestats.Datafile.EvYieldText` | pokestats.py:113-128 | the answer is the "not found" message for a missing record; for a found record it is "" iff none of its six yields is truthy |
| `Pokestats.Datafile.PrintEvYield` | pokestats.py:113-128 | looks the record up with `GetDict`; the loop's result equals the specified text: "not found" for a missing record, otherwise the ", "-joined entries of the truthy yields |
| `Pokestats.EvYieldTextCases` | pokestats.py:116-118 | the answer equals the "not found" message iff no record matches; a found record's non-empty answer splits on ", " into its entries |
| `Pokestats.AllZeroYieldRendersEmpty` | pokestats.py:117 | a found record whose yields are all zero or null gives "", which is not the "not found" message |
| `Records.Shown` | pokestats.py:121-122 | the shown positions are exactly the truthy ones, in strictly increasing order |
| `Records.Entry` | pokestats.py:126 | an entry is longer than its stat label, starts with that whole label and holds no comma |
| `Records.EntriesAreShown` | pokestats.py:120-126 | the k-th rendered entry is `"<label>: <value>"` for the k-th truthy position, with no other entries |
| `Records.RenderStep` | pokestats.py:121-126 | one loop step adds `", "` only when the text so far is non-empty, then adds the entry; a falsy entry changes nothing |
| `Records.RenderEmpty` | pokestats.py:120-128 | the rendered yield is "" iff no entry is truthy |
| `Records.RenderSplits` | pokestats.py:123-126 | a non-empty rendered yield splits on ", " into exactly the entries, so no separator leads, trails or repeats |
| `Records.RenderStartsWithLabel` | pokestats.py:126 | a non-empty rendered yield starts with the first letter of a stat label |
| `Records.SingleYieldExample` | pokestats.py:120-128 | the yield `[0, 0, 0, 2, 0, 0]` renders as `SpAtk: 2` |
| `Records.NegativeYieldExample` | pokestats.py:122 | a negative yield is truthy and is listed; null and zero are skipped |
| `Text.IntToString` | pokestats.py:126 | the rendered number is non-empty and holds only digits and a minus sign; it starts with `-` iff the number is negative; no digit string of more than one digit starts with `0`, and neither does the first digit after a minus sign |
| `Text.IntToStringRoundTrip` | pokestats.py:126 | the rendered number parses back to the same integer |
| `Text.Split` | pokestats.py:123-124 | joining the pieces back with ", " gives the original text |
| `Text.SplitJoin` | pokestats.py:123-124 | splitting on ", " undoes the join of one or more pieces, none containing a comma |
| `Text.JoinSnoc` | pokestats.py:123-126 | adding a piece adds the separator only when there were earlier pieces |
| `Text.JoinEmpty` | pokestats.py:123 | with non-empty pieces, the joined text is empty iff there are no pieces; otherwise its first character is the first piece's first character |
| `Text.JoinStartsWithFirst` | pokestats.py:123-126 | the joined text of one or more pieces begins with the whole first piece |
| `Records.HiddenAbilityOf` | pokestats.py:138-144 | if the third slot equals one of the first two slots (exact, case-sensitive comparison), the result is `"None"`; if it equals neither, the result is the third slot; a result equal to one of the first two slots is always `"None"` |
| `Records.HiddenAbilityExamples` | pokestats.py:141 | duplicated slots give `"None"`; a distinct third slot is returned; the comparison is case-sensitive |
| `Pokestats.Datafile.HiddenAbility` | pokestats.py:130-144 | gives nothing iff no lower-cased name equals the lower-cased query; otherwise gives the hidden-ability rule applied to the first record whose name matches it |
| `Pokestats.Datafile.PrintHiddenAbility` | pokestats.py:146-153 | the answer is non-empty; it starts with `H` iff a record is found with a non-empty hidden-ability text, and with `P` (the "not found" message) otherwise |
| `Pokestats.PrintHiddenAbilityCases` | pokestats.py:146-153 | the answer is `"Hidden ability: " + h` iff the record is found with a non-empty hidden text `h`; it is the "not found" message iff the record is missing or the text is empty |
| `Pokestats.EmptyHiddenSlotReadsAsNotFound` | pokestats.py:150 | a found record whose third slot is `""`, distinct from both earlier slots, is reported as "not found" |

`NotFound` and `Render` are definitions. What they mean is stated by the
lemmas in the table. The "not found" message is
`"Pokémon <pokemon> not found"`, with the query exactly as typed.

## Left out

- `load_data` (reading and parsing the JSON file): the constructor takes the records already loaded.
- `functions`, `option_help`, `help`, `handle_args` and the `__main__` block: help text, argument parsing and reflective dispatch. They hold no query logic.
- The non-string branch of `get_dict`: the queries always pass a string, and always look up the `name` key.
- `Text.Lower`: models ASCII lower-casing only. Python's `str.lower` uses full Unicode case mapping.
- Yield entries are integers or `null`. Floats and booleans in the JSON, and how `f"{ev}"` would print them, are not modelled.
- Records whose shape differs from six yields and three ability slots. The `Creature` type excludes all of them. In the source:
  - an empty yield list takes the `not ev_yield` branch and gives the "not found" message;
  - a list of one to five yields renders normally;
  - a list of seven or more fails with an `IndexError` only when an entry at position 6 or later is truthy, and otherwise renders normally;
  - fewer than three ability slots fail with an `IndexError` in `hidden_ability`;
  - more than three slots work, because only the first three are read.
- Records are reduced to the three keys the queries read.
