# Simulink change tracker: a Dafny model of the block map and the change report

The tracker reads the root system document of a Simulink model
(`simulink/systems/system_root.xml` inside the `.slx` archive). It builds a
map from block names to block records. It can save that map as a baseline
list, or compare a freshly extracted map with a saved baseline: every block
is classified as added, removed, changed or unchanged, and the report lists
the parameter keys that differ for each changed block.

This project models that core on values and proves what it computes:

- `wrappers.dfy`: `Option` and `Result`.
- `pydict.dfy` (`PyDict`): a Python `dict` as an insertion-ordered key list
  plus a map. Assigning to an existing key keeps its position; a new key is
  appended. `Build` folds a list of pairs into a dict, the way a dict
  comprehension or a `d[k] = v` loop does. Dict equality in the source is
  order-insensitive, so the model compares the `entries` maps.
- `element_tree.dfy` (`ElementTree`): an XML element (tag, attributes,
  optional text, children). `Iter(e, tag)` is ElementTree's `iter`: a
  pre-order walk that includes `e` itself.
- `extract.dfy` (`Extract`): `extract_blocks_from_slx` from the parsed
  document on.
  - The function `FromBlocks` specifies the loop.
  - The method `CollectBlocks` is the loop itself.
  - A missing document raises `RootNotFound`.
  - A `P` element without a `Name` raises `KeyError("Name")`.
- `baseline.dfy` (`Baseline`): the baseline list built by `create_baseline`,
  and the map `compare_to_baseline` rebuilds from it.
- `compare.dfy` (`Compare`): the classification loops of
  `compare_to_baseline`, each a method proved against selection functions.
- `param_diff.dfy` (`ParamDiff`): the differing-key loop of the report
  writer. This covers Python's string order, `sorted` over a set, and the
  `get(key, "<none>")` comparison.
- `change_report.dfy` (`ChangeReport`): `compare_to_baseline` without its
  I/O, returning the data the Markdown report is written from.

The model follows the code rather than the prose description of the tool:

- Blocks are keyed by their flat `Name` attribute, not by a hierarchical
  path, so blocks with the same name in different subsystems overwrite one
  another. Only the last one kept survives (`FromBlocksLastWins`).
- No connection (line) data is extracted or compared.
- A block's parameters are all the `P` elements of its whole subtree,
  nested blocks included (`NestedBlock`).
- The SID is stored and printed but never compared.

Two behaviours of the code follow from the proved lemmas:

- A parameter whose text is literally `<none>` compares equal to a missing
  parameter (`LiteralNoneMatchesMissing`). Such a block can be classified as
  changed, because its parameter dicts differ, and still have no parameter
  line listed (`DifferingIffUnequal` covers every other case).
- A block whose only change is its `BlockType` is also listed as changed
  with no parameter line.

## Model

| member | source | states |
|---|---|---|
| PyDict.PutValid | simulink_tracker.py:42 | Assigning a key keeps every key listed exactly once, and the key list is exactly the map's key set. |
| PyDict.BuildValid | simulink_tracker.py:36-46 | A dict built by successive assignments lists each key once, in the order of first assignment. |
| PyDict.BuildKeys | simulink_tracker.py:36-46 | A key is in the built dict exactly when some assignment used it. |
| PyDict.BuildLastWins | simulink_tracker.py:42 | The built dict holds, under each key, the value of the last assignment to that key. |
| PyDict.DedupPrefix | simulink_tracker.py:42 | Further assignments never reorder the keys already present: the earlier key list is a prefix of the later one. |
| PyDict.DedupMembers | simulink_tracker.py:36-46 | The first-occurrence key list contains exactly the keys that occur. |
| PyDict.DedupDistinct | simulink_tracker.py:74 | Building from keys that are already distinct keeps them in their given order. |
| ElementTree.Iter | simulink_tracker.py:37 | `iter(tag)` yields only elements with that tag, and yields the element itself first when its own tag matches. |
| ElementTree.IterTransitive | simulink_tracker.py:37-41 | Anything `iter` finds below an element that `iter` found is also found from the root. |
| Extract.CollectBlocks | simulink_tracker.py:36-47 | The block loop returns exactly the result of the block-map specification, the first `KeyError` included. |
| Extract.ExtractBlocks | simulink_tracker.py:29-47 | A missing root document raises `RootNotFound`; otherwise the result is the block loop over `iter("Block")` of the root. |
| Extract.ParamsFailure | simulink_tracker.py:41 | Collecting parameters raises exactly when some `P` in the block's subtree has no `Name`, and raises `KeyError("Name")`. |
| Extract.NamedPairsKeys | simulink_tracker.py:41 | The parameter dict built from named `P` elements is keyed by exactly their names, once each, in order of first occurrence. |
| Extract.ParamsKeys | simulink_tracker.py:41 | When collection succeeds, the parameter keys are the names of all `P` elements of the subtree, once each, in order of first occurrence. |
| Extract.ParamsLastWins | simulink_tracker.py:41 | A parameter holds the text of the last `P` of the subtree with its name; absent text stays absent. |
| Extract.FromBlocksFailure | simulink_tracker.py:37-41 | The block loop raises exactly when some block has an unnamed `P` in its subtree, and raises `KeyError("Name")`. |
| Extract.FromBlocksKeys | simulink_tracker.py:37-42 | The map's keys are the block names, with "Unnamed" for a block lacking `Name`, once each, in pre-order of first occurrence; a name is a key exactly when some block carries it. |
| Extract.FromBlocksLastWins | simulink_tracker.py:38-46 | Under each name the map holds the type, SID and parameters of the last block so named. |
| Extract.ExtractionFailure | simulink_tracker.py:37-41 | Extraction from a present document fails exactly when some `P` below some `Block` is unnamed, and fails with `KeyError("Name")`. |
| Extract.NestedBlock | simulink_tracker.py:37-41 | A block nested inside an extracted block is extracted too, and its `P` elements also count as parameters of the outer block. |
| Baseline.Flatten | simulink_tracker.py:56 | The baseline list has one record per key of the block map. |
| Baseline.NamedPairs | simulink_tracker.py:74 | Rebuilding keys each record by its own name, in list order. |
| Baseline.RebuildLastWins | simulink_tracker.py:74 | The rebuilt map lists each name once, in order of first occurrence, and keeps the last record of each name. |
| Baseline.RoundTrip | simulink_tracker.py:56-74 | Flattening a block map and rebuilding it gives the same keys in the same order, and each key keeps its type, SID and parameters. |
| Baseline.RoundTripAt | simulink_tracker.py:56-74 | The record flattened from the i-th key is the one rebuilt under that key. |
| Baseline.CreateBaseline | simulink_tracker.py:55-56 | Raises exactly what extraction raises; otherwise returns the flattened block map, whose rebuild has the block map's keys in order. |
| Compare.SortNewBlocks | simulink_tracker.py:78-88 | The loop over the new map yields the added blocks, the (old, new) changed pairs and the unchanged blocks, each list being the blocks of that status in the new map's order. |
| Compare.CollectRemoved | simulink_tracker.py:90-92 | The loop over the baseline yields the baseline records whose names are missing from the new map, in the baseline's order. |
| Compare.SelectMembers | simulink_tracker.py:80-92 | A name is selected for a status exactly when it is iterated and has that status. |
| Compare.SelectDistinct | simulink_tracker.py:80-92 | No block name is reported twice within a bucket. |
| Compare.SelectOrder | simulink_tracker.py:80-92 | Each bucket keeps the iteration order of the map it was collected from. |
| Compare.SelectCount | simulink_tracker.py:80-92 | The four bucket sizes over a key list add up to the list's length. |
| Compare.SelectNone | simulink_tracker.py:80-92 | If no iterated name has a status, that bucket is empty. |
| Compare.SelectEvery | simulink_tracker.py:80-92 | If every iterated name has a status, that bucket is the whole key list. |
| Compare.ValuesAt | simulink_tracker.py:82-92 | The blocks appended for a list of present names are the map's values for those names, position by position. |
| Compare.PairsAt | simulink_tracker.py:84-86 | Each changed pair is the baseline record and the new block under the same name. |
| Compare.Partition | simulink_tracker.py:80-92 | A name is added iff only the new map has it, removed iff only the baseline has it, changed iff both have it and the type or parameters differ, unchanged iff both have it and neither differs. |
| Compare.SharedCount | simulink_tracker.py:80-92 | Counting changed (or unchanged) names from the new map or from the baseline gives the same number. |
| Compare.Counts | simulink_tracker.py:80-92 | Added + changed + unchanged equals the number of new blocks; removed + changed + unchanged equals the number of baseline blocks. |
| Compare.SelectAgree | simulink_tracker.py:80-92 | Two comparisons that give every name the same status yield the same buckets. |
| Compare.SidIgnored | simulink_tracker.py:85 | Two new maps that differ only in SIDs are classified identically against any baseline. |
| Compare.SelfDiff | simulink_tracker.py:56-92 | Comparing a block map with the baseline made from it yields nothing added, changed or removed, and every block unchanged in order. |
| ParamDiff.LessIrreflexive | simulink_tracker.py:118 | No string sorts before itself. |
| ParamDiff.LessTransitive | simulink_tracker.py:118 | The string order is transitive. |
| ParamDiff.LessTotal | simulink_tracker.py:118 | Of two different strings, one sorts before the other. |
| ParamDiff.MinExists | simulink_tracker.py:118 | A non-empty set of strings has a least element. |
| ParamDiff.Min | simulink_tracker.py:118 | The chosen element belongs to the set and sorts before every other element. |
| ParamDiff.SortSet | simulink_tracker.py:118 | `sorted(set)` holds exactly the set's elements, in strictly ascending order. |
| ParamDiff.KeepMembers | simulink_tracker.py:118-121 | A key is listed exactly when it is iterated and its `get(key, "<none>")` values differ. |
| ParamDiff.KeepSorted | simulink_tracker.py:118-121 | Filtering a sorted key list leaves it sorted. |
| ParamDiff.DifferingKeysMeaning | simulink_tracker.py:117-122 | The listed keys are ascending, and a key is listed exactly when either dict has it and the `get(key, "<none>")` values differ. |
| ParamDiff.DifferingKeys | simulink_tracker.py:117-122 | The loop lists exactly the differing keys, each once, in ascending order. |
| ParamDiff.AbsentTextDiffersFromMissing | simulink_tracker.py:119-121 | A parameter present with absent text is listed when the other side lacks it. |
| ParamDiff.LiteralNoneMatchesMissing | simulink_tracker.py:119-121 | A parameter with the literal text "<none>" is not listed when the other side lacks it. |
| ParamDiff.DifferingIffUnequal | simulink_tracker.py:85-121 | Without literal "<none>" texts, some key is listed exactly when the parameter dicts are unequal. |
| ChangeReport.Details | simulink_tracker.py:115-122 | There is one changed-block entry per changed pair. |
| ChangeReport.Describe | simulink_tracker.py:115-122 | The report loop over changed pairs produces, for each pair in order, its differing keys. |
| ChangeReport.BuildReport | simulink_tracker.py:78-122 | The report data for two block maps: the four buckets in iteration order, plus the differing keys of every changed pair. |
| ChangeReport.CompareToBaseline | simulink_tracker.py:72-122 | Raises exactly what extracting the new model raises; otherwise returns the report of the rebuilt baseline map against the new block map. |
| ChangeReport.SelfReport | simulink_tracker.py:56-128 | A model compared with its own baseline reports no added, removed or changed block, and lists every block as unchanged in map order. |
| ChangeReport.GainChanged | simulink_tracker.py:80-122 | A block whose `Gain` goes from "1" to "2" is the one changed block, with `Gain` its only differing key. |

## Left out

- The Tkinter file dialog (lines 10-14) and the text menu loop (lines 133-149) are user interaction. The model takes the chosen inputs as parameters; an empty selection only returns early.
- Copying the `.slx` file, unzipping it and cleaning the temporary folder (lines 17-27) are file-system I/O. The model's input is the root system document, which is `None` when `system_root.xml` is missing (lines 29-31): that case raises `RootNotFound`.
- XML parsing (lines 33-34) is not modelled. The input is an already parsed `Element` tree.
- Writing and reading `baseline.json` (lines 57-58, 72-73) is modelled as the identity on the record list. JSON keeps strings, `null` and key order, so the loaded list equals the saved one. The check that the file exists (lines 62-64) is an early return and is left out.
- The timestamps and the report file name (lines 94-96) come from the clock and are left out.
- The Markdown text of the report (lines 98-130) is left out. The model returns the data it is formatted from: the four buckets, their order, and each changed block's differing keys in the order they are written.
- Console output (lines 50, 53, 59, 63, 66, 69, 130) is left out.
- ChangeReport.CompareToBaseline: baseline records always carry a name, type, SID and parameters. A hand-edited `baseline.json` whose entry lacks `"Name"` raises `KeyError` at line 74, and one lacking `"BlockType"` or `"Parameters"` raises at line 85; neither error is modelled.
- The string order compares characters by code point, as Python does for `str`. Strings are sequences of Dafny `char`, with no Unicode normalisation.
