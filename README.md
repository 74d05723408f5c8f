# DLCQuest item catalogue, modelled in Dafny

This project models the item catalogue of the DLCQuest world in the Archipelago
multiworld randomizer (`worlds/dlcquest/Items.py`). That module does four things:

- It defines the `ItemData` record: an optional local id, a name, a
  classification and a frozen set of `Group` tags. Each record has a derived
  multiworld code, `120000 + id`.
- It decodes the rows of `items.csv` into records, in row order. A bad id, an unknown
  classification name or an unknown group name aborts loading.
- It builds two indexes. `item_table` maps names to items, and a later item
  overwrites an earlier one with the same name. `items_by_group` maps each group to
  its items, in catalogue order.
- It implements `create_items`. This function hands the items of the groups the
  campaign option selects to the world's `create_item`: DLCQuest items first, then
  Freemium items.

Modules, one per component:

- `Wrappers`: `Option` (Python's `None`) and `Result` (the exceptions raised).
- `Items`: `Group`, `ItemClassification`, `ItemData`, the constructor with its
  `__post_init__` set coercion, `code` and `has_any_group`.
- `Loader`: a CSV row as four strings, `str.split(",")`, the id column, the groups
  column, one row and the loading loop.
- `Indexes`: `initialize_item_table`, plus `initialize_groups` written as a method
  with nested loops over a `map<Group, seq<ItemData>>`.
- `Selector`: the campaign option and `create_items`, written as a method with two
  loops.
- `Setup`: the module-import sequence (load, then fill the two empty dictionaries)
  as one explicit method that returns the three values.

Missing groups are not treated as empty. A campaign can need a group that has no
key in `items_by_group`, because no item carries it. `create_items` indexes the dictionary
directly, so that campaign raises `KeyError`. It does not act as if the group's
list were empty. `CreateItems` returns `Err(KeyError(g))` in that case. It also
reports, in `calls`, the factory calls already made before the failure.

## Model

| member | source | states |
|---|---|---|
| `Items.GroupNamed` | worlds/dlcquest/Items.py:15-19 | `Group[s]` finds tag `g` exactly when `s` is the member name of `g`; otherwise it finds nothing |
| `Items.ClassificationNamed` | worlds/dlcquest/Items.py:53 | `ItemClassification[s]` finds member `c` exactly when `s` is the name of `c` |
| `Items.MakeItemData` | worlds/dlcquest/Items.py:23-32 | construction stores id, name and classification unchanged, and the tag set holds exactly the tags of the collection passed in; `groups` defaults to none, so the default record has an empty tag set |
| `Items.MakeItemDataCollapsesDuplicates` | worlds/dlcquest/Items.py:28-32 | the coerced tag set is never larger than the collection passed in, and it is exactly as large iff that collection had no duplicate |
| `Items.Code` | worlds/dlcquest/Items.py:34-36 | the code is absent iff the local id is absent; when present, the code minus the offset 120000 is the local id |
| `Items.CodeSeparatesItems` | worlds/dlcquest/Items.py:11 | different local ids give different codes, and a non-negative id gives a code of at least 120000 |
| `Items.HasAnyGroup` | worlds/dlcquest/Items.py:38-40 | true iff some candidate tag is among the item's groups; false with no candidates |
| `Loader.JoinSplit` | worlds/dlcquest/Items.py:54 | joining the pieces of `split(",")` with commas gives the field back, and no piece contains a comma |
| `Loader.SplitJoin` | worlds/dlcquest/Items.py:54 | splitting the comma-join of comma-free pieces gives those pieces back |
| `Loader.ParseId` | worlds/dlcquest/Items.py:52 | an empty field gives no id, a non-empty field that is not all digits is a ValueError carrying the text, and a parsed id is never negative |
| `Loader.ParseIdShowNat` | worlds/dlcquest/Items.py:52 | every natural number written in decimal parses back to itself |
| `Loader.DecodeGroupPiecesOk` | worlds/dlcquest/Items.py:54 | decoding the groups field succeeds iff every non-empty piece names a group |
| `Loader.DecodeGroupPiecesValues` | worlds/dlcquest/Items.py:54 | the decoded groups are exactly those whose names occur among the pieces |
| `Loader.DecodeGroupPiecesError` | worlds/dlcquest/Items.py:54 | a failure is the KeyError of the first non-empty piece that names no group |
| `Loader.DecodeRowMeaning` | worlds/dlcquest/Items.py:52-55 | errors come in source order: a bad id is its ValueError, then an unknown classification its KeyError, and once both are valid a failure is the KeyError of the first non-empty group piece that names no group; a row decodes iff its id, its classification and every group piece are valid; the record has the row's name, no id iff the id field is empty, the field's decimal value otherwise, the named classification and exactly the named groups |
| `Loader.LoadItemCsv` | worlds/dlcquest/Items.py:48-56 | succeeds iff every row decodes, and then holds the decoded rows one for one in row order; otherwise returns the error of the first row that fails |
| `Indexes.ItemTableKeys` | worlds/dlcquest/Items.py:61-62 | after `update`, the table's keys are its old keys plus the catalogue's names |
| `Indexes.ItemTableKeepsOthers` | worlds/dlcquest/Items.py:61-62 | an old entry whose name no catalogue item carries is kept unchanged |
| `Indexes.ItemTableLastWins` | worlds/dlcquest/Items.py:62 | each name maps to the last catalogue item carrying that name |
| `Indexes.DistinctNamesTable` | worlds/dlcquest/Items.py:62 | with distinct names, the table has one entry per item and finds every item under its own name |
| `Indexes.MembersConcat` | worlds/dlcquest/Items.py:64-69 | a group's member list keeps catalogue order: the members of `a + b` are those of `a` followed by those of `b` |
| `Indexes.MembersCount` | worlds/dlcquest/Items.py:64-69 | an item occurs in a group's list as often as in the catalogue if it carries the group, and never otherwise |
| `Indexes.MembersNonEmpty` | worlds/dlcquest/Items.py:64-69 | a group's list is non-empty iff some catalogue item carries the group |
| `Indexes.AddToGroups` | worlds/dlcquest/Items.py:66-69 | one item, in any order of its tags: keys gain the item's groups, and exactly the lists of its groups gain the item at the end |
| `Indexes.InitializeGroups` | worlds/dlcquest/Items.py:64-69 | keys are the old keys plus the groups some item carries, so an uncarried group gets no key; each list is its old contents followed by the group's members in catalogue order |
| `Selector.CreateItems` | worlds/dlcquest/Items.py:76-84 | per campaign: `Basic` gives the DLCQuest list, `LiveFreemiumOrDie` the Freemium list, `Both` the first followed by the second, and `Other` nothing; the factory is called once per selected item, in order, and the result is its outputs in that order; a needed group without a key is a KeyError raised after the calls already made |
| `Setup.Initialize` | worlds/dlcquest/Items.py:58-73 | importing the module fails iff some row does not decode; on success the catalogue is the decoded rows, the name table has exactly the catalogue's names with last-wins values, and the group index has exactly the carried groups as keys, each mapped to its members in catalogue order |

## Left out

- File access (`importlib.resources`, opening `items.csv`) and the CSV reader's quoting and row-splitting rules are not modelled. The input is a sequence of rows whose four fields are already separated.
- ParseId: accepts only non-empty strings of ASCII decimal digits. Python's `int()` also accepts a sign, surrounding whitespace, underscores between digits and non-ASCII digits; the model rejects all of those as `BadId`.
- `ItemClassification` belongs to the multiworld core (`BaseClasses`), which is not part of this model. It is modelled with the member names `filler`, `progression`, `useful`, `trap`, `skip_balancing` and `progression_skip_balancing`. Its integer-flag values and flag combinations are not modelled.
- `BaseClasses.Item`, `DLCquestItem` and `world.create_item` are not part of this model. The factory is a pure function from records to an opaque handle type.
- CreateItems: the factory is pure, so whatever else `create_item` does to the world is not modelled. The model only records which items the factory is called on, and in what order (the `calls` out-parameter).
- The `Options` module is not part of this model. The campaign option is the datatype `Campaign`, and `Other` stands for every value besides the three named ones.
- Module-level globals are not modelled as globals. `Setup.Initialize` takes the rows and returns the three values instead.
- In `initialize_groups`, `get` returns the list object already stored in the dictionary, and `append` mutates it in place. The model works on values, assigning the extended list back. The resulting dictionary is the same, but the aliasing itself is not modelled.
- The iteration order of a `frozenset` is unspecified. `AddToGroups` picks the item's groups in an arbitrary order, and its contract holds for every order.
