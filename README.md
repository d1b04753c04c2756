# YAML key-path editor, modelled in Dafny

This project models the in-memory editing engine of the `YamlParser` class of the Ansible
collection `yaml` (`plugins/module_utils/parse.py`). A loaded YAML document is edited in
three ways:

- `update` items. Each item names a dotted key path such as `a.b[2].c`, a value and
  `added` / `removed` flags. `_check` walks the path first. In strict mode it raises on a
  missing key, a node of the wrong kind or an index past the end. In add mode it creates
  `{}`, `[{}]` or one more `{}`. In remove mode it stops quietly at the first missing
  segment. `_update` then walks the path with plain Python subscripts and sets or pops at
  the last segment. It reports whether the document changed.
- `values`, a mapping merged into the document by `compare_dicts`. The merge recurses into
  mappings and walks lists position by position. It overwrites on a kind clash only when
  `overwrite` is set, and raises when a key or a position is missing and adding is not
  allowed.
- `run`, which applies the `update` items in order and then merges `values`, setting the
  `changed` flag.

The document is a value: `Nodes.Node` is a mapping (an ordered sequence of entries), a
list or a scalar (string, integer, boolean, null). A place in the tree is a sequence of
`Key`/`Idx` steps (`Locations`). Writing through a Python reference that points into the
tree is modelled as `Put` at the cursor's location.

Modules:

- `Nodes`: the document and its errors. It holds dict assignment, `pop`, Python equality,
  `len`, `in` and negative indices.
- `Locations`: locations, and the subscripts `x[k]`, `x[i]` and `x[k][i]`.
- `Paths`: `str.split`, `_join` and `_convert`. `_convert` is the regular expression
  `(.*)\[([\-0-9]*)\]` followed by `int()`.
- `Check`: `_check`, specified by the walk `CheckWalk`.
- `Update`: `_update`, specified by the walk `UpdateWalk`.
- `Merge`: `compare_dicts`, `_all_search` and `_search`, specified by `MergeEntries`,
  `MergeKey`, `MergeList` and `MergeListElement`.
- `Parser`: the class `YamlParser`. It holds the fields `yamlData` and `changed` and the
  methods that mutate them. Each method is proved against the specification functions,
  and `run` is specified by `RunOutcome`.

## Model

| member | source | states |
|---|---|---|
| Nodes.SetKey | plugins/module_utils/parse.py:74 | `d[k] = v`: afterwards `k` maps to `v`, every other key keeps its presence and value, an existing key's entry is replaced where it stands, and a new key is appended at the end |
| Nodes.RemoveKey | plugins/module_utils/parse.py:137 | `d.pop(k)` removes one entry when `k` is present and changes nothing otherwise; every other key keeps its presence and value |
| Nodes.RemoveKeyUnique | plugins/module_utils/parse.py:137 | after a pop the key is gone from a dict with unique keys, and the keys stay unique |
| Nodes.SetKeyWellFormed | plugins/module_utils/parse.py:74 | assigning a well-formed value under a key keeps a well-formed dict well formed |
| Nodes.RemoveKeyWellFormed | plugins/module_utils/parse.py:137 | popping a key keeps a well-formed dict well formed |
| Nodes.EquivRefl | plugins/module_utils/parse.py:143 | Python `==` on loaded values is reflexive on every well-formed value, so writing a value and comparing it again finds it equal |
| Nodes.EquivScalar | plugins/module_utils/parse.py:159 | a scalar equals exactly itself, and only scalars equal a scalar |
| Nodes.Equiv | plugins/module_utils/parse.py:143 | Python `==` on loaded values never holds between a dict, a list and a scalar: equal values are of the same kind |
| Nodes.PyLen | plugins/module_utils/parse.py:91 | `len(x)` is defined for dicts, lists and strings and raises for other scalars; a list's length is its number of elements |
| Nodes.PyIn | plugins/module_utils/parse.py:202 | `k in x` raises TypeError only for a scalar that is not a string; on a dict it tests key membership |
| Nodes.PyIndex | plugins/module_utils/parse.py:100 | an integer index is valid exactly when `-n <= i < n`, and a negative index counts from the end |
| Nodes.IndexOfKey | plugins/module_utils/parse.py:72 | the key lookup finds the first entry with the key, or reports that no entry has it |
| Locations.KeyHop | plugins/module_utils/parse.py:80 | `x[k]` succeeds exactly on a dict holding `k`, and leads to the child at location `[Key(k)]` |
| Locations.IndexHop | plugins/module_utils/parse.py:100 | `x[i]` on a list succeeds exactly when `i` is a valid Python index and gives the element it selects; on a string it does the same and gives a one-character string that has no place in the tree; a dict raises KeyError and any other scalar TypeError |
| Locations.KeyIndexHop | plugins/module_utils/parse.py:100 | `x[k][i]` raises what `x[k]` raises when `x` is not a dict holding `k`; otherwise it succeeds exactly when `x[k][i]` does, gives that element, and when the element has a place in the tree it is two steps below `x`, through `k` |
| Locations.AtPut | plugins/module_utils/parse.py:59-100 | writing at a reachable location and reading it back gives what was written |
| Locations.PutAt | plugins/module_utils/parse.py:59-100 | writing back what a location holds leaves the document unchanged |
| Locations.PutPut | plugins/module_utils/parse.py:59-100 | a second write at the same location replaces the first |
| Locations.PutAppend | plugins/module_utils/parse.py:124-130 | writing through a cursor below a location is writing the updated cursor node at that location |
| Locations.KeyIndexHopPut | plugins/module_utils/parse.py:145 | after `x[k][i] = y`, `x[k][i]` is `y` |
| Locations.PutWellFormed | plugins/module_utils/parse.py:124-130 | writing a well-formed node at a reachable location of a well-formed document keeps the document well formed |
| Paths.Split | plugins/module_utils/parse.py:58 | `split(".")` gives at least one piece, and no piece contains the delimiter |
| Paths.JoinSplit | plugins/module_utils/parse.py:102-119 | `_join` of the split key without a depth gives back the original key string |
| Paths.SplitJoin | plugins/module_utils/parse.py:102-119 | splitting the join of dot-free pieces gives back the pieces |
| Paths.JoinAll | plugins/module_utils/parse.py:119 | `delimiter.join(l)` starts with the first piece and is as long as the pieces together plus one delimiter between each two |
| Paths.Join | plugins/module_utils/parse.py:117-119 | `_join` without a depth joins every piece; with a depth it gives a prefix of the full join |
| Paths.JoinDepthSplit | plugins/module_utils/parse.py:102-119 | `_join` with depth d gives the key up to depth d: for dot-free pieces, splitting it gives back exactly the first d pieces (all of them when d is past the end), so the error messages name the path up to the failing segment |
| Paths.JoinAllPrefix | plugins/module_utils/parse.py:119 | joining the first `k` pieces gives a prefix of the join of all pieces |
| Paths.ParseShow | plugins/module_utils/parse.py:54 | `int(str(n)) == n` for every integer, negative ones included |
| Paths.ParseInt | plugins/module_utils/parse.py:54 | `int(t)` accepts exactly an optional minus sign followed by at least one digit, so `int("")` raises; only a leading minus gives a negative number |
| Paths.Convert | plugins/module_utils/parse.py:46-55 | a segment has no index exactly when it has no bracket, and is then returned unchanged; an index is only ever found in a segment containing `[` |
| Paths.ConvertPlain | plugins/module_utils/parse.py:46-47 | a segment without brackets converts to itself with no index |
| Paths.ConvertIndexed | plugins/module_utils/parse.py:49-55 | `name[N]` converts to `name` and `N` for every integer `N`, when nothing after the closing bracket opens another `[` |
| Paths.ConvertEmptyIndex | plugins/module_utils/parse.py:54 | `name[]` is refused, because `int("")` raises |
| Paths.LastBracket | plugins/module_utils/parse.py:49-51 | in `name[d]tail` the greedy `(.*)` ends at the bracket after `name` |
| Paths.LastOpenIsLast | plugins/module_utils/parse.py:49-51 | the greedy `(.*)` stops at the last `[` that opens a well-formed index: no later position opens one, and when none is found no position does |
| Paths.RunEndScans | plugins/module_utils/parse.py:49 | the group `[\-0-9]*` takes every index character up to the first other character |
| Check.CheckSegment | plugins/module_utils/parse.py:61-100 | one loop pass moves the cursor only from a dict, to the child the subscript selects; it changes the cursor's node only in add mode |
| Check.CheckPlain | plugins/module_utils/parse.py:62-80 | a segment without an index leaves the cursor's node alone outside add mode, and moves to the child under the key |
| Check.CheckIndexed | plugins/module_utils/parse.py:81-100 | a segment `key[index]` leaves the cursor's node alone outside add mode, and moves to `v[key][index]` |
| Check.CheckReadOnlyUnlessAdding | plugins/module_utils/parse.py:57-100 | in strict and remove mode `_check` never changes the document |
| Check.StrictAcceptsResolvablePaths | plugins/module_utils/parse.py:57-100 | strict mode raises nothing exactly when every subscript along the path succeeds (both directions) |
| Check.StrictErrors | plugins/module_utils/parse.py:69-98 | the strict errors name the right prefix: the one before the segment for a non-dict, the one through the segment for a missing key, and "is out of index" for a list that is too short |
| Check.RemoveModeStopsQuietly | plugins/module_utils/parse.py:67-95 | remove mode never raises the strict errors, and on a bracket-free path never raises at all |
| Check.AddBuildsScaffold | plugins/module_utils/parse.py:73-80 | add mode on an empty dict builds exactly one nested `{}` per segment |
| Check.AddExtendsListByOne | plugins/module_utils/parse.py:91-100 | add mode appends exactly one `{}` to a short list; an index equal to the old length then selects it, and an index past it still raises IndexError |
| Check.AddedPathResolves | plugins/module_utils/parse.py:57-100 | after add mode succeeds, every subscript along the path succeeds on the document it produced |
| Check.AddModeMoves | plugins/module_utils/parse.py:65-93 | add mode never stops early: a step without an error moves the cursor |
| Check.NegativeIndexSkipsLengthTest | plugins/module_utils/parse.py:91-100 | an index below minus the length passes the length test in every mode and raises IndexError at `v[key][index]` |
| Check.AddCannotRepairKind | plugins/module_utils/parse.py:64-93 | add mode cannot add a key to a list or a scalar (TypeError, or AttributeError from `keys()`), nor append to a dict or string that is too short (AttributeError) |
| Check.ScalarCursorFails | plugins/module_utils/parse.py:64-90 | a scalar cursor cannot be walked further outside remove mode |
| Check.CheckIntoHop | plugins/module_utils/parse.py:80 | the cursor moves by the very subscript that the segment stands for |
| Check.SegmentHop | plugins/module_utils/parse.py:80-100 | the subscript a segment stands for (`v[key]`, or `v[key][index]`) succeeds only on a dict holding the key, and leads to a child of `v` |
| Check.Resolve | plugins/module_utils/parse.py:57-100 | Python subscripting along the rest of a path: it can succeed past a segment only from a dict |
| Check.CheckWalk | plugins/module_utils/parse.py:57-100 | `_check` keeps a well-formed document well formed, in every mode |
| Check.CheckSegmentWellFormed | plugins/module_utils/parse.py:61-100 | one pass of the loop keeps a well-formed cursor well formed |
| Check.CheckPlainWellFormed | plugins/module_utils/parse.py:62-80 | the plain-segment pass, in every mode, keeps a well-formed cursor well formed |
| Check.AddCreatesMap | plugins/module_utils/parse.py:62-80 | add mode on a dict missing a plain key stores `{}` under it and moves the cursor to that `{}` |
| Check.CheckIndexedWellFormed | plugins/module_utils/parse.py:81-100 | the indexed-segment pass, in every mode, keeps a well-formed cursor well formed |
| Check.AddCreatesList | plugins/module_utils/parse.py:81-100 | add mode on a dict missing the key of `key[index]` stores `[{}]` under it, or `[{}, {}]` when the index is 1 or more; the cursor moves to element 0 for index 0 or -1 and to element 1 for index 1, and any other index raises IndexError at `v[key][index]` |
| Update.NavStep | plugins/module_utils/parse.py:124-130 | a navigation step succeeds only from a dict, and leads to a node below the one it starts from (a located node at least one step down, or a character of a string) |
| Update.RemoveIndexed | plugins/module_utils/parse.py:131-140 | `temp_dict.pop(key[idx])` succeeds exactly on a dict when `idx` indexes the key name; an index outside the name raises "Invalid index" unless the parent is a scalar; it reports a change exactly when the one-character key was present, and otherwise leaves the dict as it was |
| Update.SetIndexed | plugins/module_utils/parse.py:131-147 | `temp_dict[key][idx] = value`: a missing key, or an index outside a list, raises "Invalid index"; it succeeds only where `temp_dict[key][idx]` does; it reports a change exactly when the element differs from `value`, leaves the document alone otherwise, and after a change `temp_dict[key][idx]` is `value`; a character of a string is never replaced |
| Update.RemovePlain | plugins/module_utils/parse.py:148-156 | `temp_dict.pop(k)` succeeds exactly on a dict and raises TypeError on a list; it removes `k` and reports a change exactly when `k` was present |
| Update.SetPlain | plugins/module_utils/parse.py:148-164 | `temp_dict[k] = value` succeeds exactly when the parent is a dict holding `k`, and a missing key raises "Invalid key"; it reports a change exactly when the old value differs from `value`, leaves the dict alone otherwise, and after a change is the dict with `k` assigned |
| Update.Terminal | plugins/module_utils/parse.py:131-164 | the last segment succeeds only on a dict and leaves a dict; when it reports no change the parent is as it was |
| Update.UpdateWalk | plugins/module_utils/parse.py:121-164 | `_update` succeeds only on a dict document and leaves a dict; when it reports no change the document is as it was |
| Update.NavStepPut | plugins/module_utils/parse.py:124-130 | after writing where a segment led, the same segment leads to what was written |
| Update.ScalarUpdateFails | plugins/module_utils/parse.py:124-164 | nothing can be set or removed below a scalar |
| Update.SetTwice | plugins/module_utils/parse.py:141-162 | setting is idempotent: repeating a set that succeeded reports no change and leaves the document as it is |
| Update.RemoveTwice | plugins/module_utils/parse.py:135-156 | removing is idempotent in a well-formed document: a second removal reports no change |
| Locations.WellFormedAt | plugins/module_utils/parse.py:124-130 | every node below a well-formed document is well formed |
| Update.UpdateTouchesOneNode | plugins/module_utils/parse.py:121-164 | the result flag is truthful and the change is local: no change leaves the document as it was, a set replaced exactly one node that differed from the value, and a removal dropped exactly one present key |
| Update.TerminalWellFormed | plugins/module_utils/parse.py:131-164 | the last segment, set to a well-formed value or popped, keeps a well-formed parent well formed |
| Update.UpdateKeepsWellFormed | plugins/module_utils/parse.py:121-164 | `_update` with a well-formed value keeps a well-formed document well formed |
| Update.RemoveBelowMissingKeyRaises | plugins/module_utils/parse.py:124-130 | removing below a missing intermediate key raises KeyError from the walk, outside the `try` that turns a missing key into "no change" |
| Update.IndexedRemovalPopsCharacter | plugins/module_utils/parse.py:131-147 | removing `name[n]` pops the key made of the character `name[n]` (negative `n` counting from the end) from the parent dict, not element `n` of the list; an `n` outside the name raises "Invalid index" |
| Update.SetMissingKeyRaises | plugins/module_utils/parse.py:158-164 | setting a plain key that the parent dict lacks raises "Invalid key" |
| Update.PlainRemovalPops | plugins/module_utils/parse.py:148-156 | removing a plain key from a dict pops it and reports whether it was there; a missing key is no error |
| Merge.MergeEntries | plugins/module_utils/parse.py:201-272 | no change means the target is untouched; a dict target stays a dict; a non-empty key loop that raises nothing had a dict as its target |
| Merge.MergeKey | plugins/module_utils/parse.py:202-272 | one key touches only its own entry: a changed target is the old dict with only `k` assigned; it never drops the key; without `overwrite` a success never has a dict meeting a list |
| Merge.MergeKeyFrame | plugins/module_utils/parse.py:202-272 | on a dict target one key leaves every other key's presence and value alone |
| Merge.MergeEntriesFrame | plugins/module_utils/parse.py:201-272 | on a dict target the merge never removes a key, leaves keys the source does not mention untouched, and without `added` keeps the key set |
| Merge.MergeEntriesFindsKeys | plugins/module_utils/parse.py:201-207 | without `added`, a key loop that raises nothing found every source key already in the target |
| Merge.MergeList | plugins/module_utils/parse.py:225-261 | the list branch keeps the target's prefix and scalar positions, and only grows the list; on success the length is the larger of the two, the appended elements are the source's, and every nested source list was empty and met a non-list |
| Merge.MergeListElement | plugins/module_utils/parse.py:226-261 | one position changes only itself or appends one element; appending needs `added`, and a nested source list succeeds only when empty over a non-list |
| Merge.MergeKeyRules | plugins/module_utils/parse.py:202-272 | the per-key rules: insert a missing key only with `added`; a dict and a list replace each other only with `overwrite`; an unequal scalar pair is replaced; an equal one changes nothing |
| Merge.MergeIntoNonMap | plugins/module_utils/parse.py:241-261 | merging into a non-dict raises for a non-empty source and is a no-op for an empty one, so recursion into a non-dict list element errs unless the source is empty |
| Merge.Search | plugins/module_utils/parse.py:281-285 | `_search` is true exactly when some record is a dict whose entry `k` equals `v` |
| Merge.MissingKeys | plugins/module_utils/parse.py:274-279 | a key is reported missing exactly when its entry matches no record; there are never more missing keys than entries |
| Merge.AllSearchOutcome | plugins/module_utils/parse.py:274-279 | `_all_search` raises AttributeError exactly for a non-dict, and otherwise returns exactly the keys whose entry matches no record |
| Merge.AllSearch | plugins/module_utils/parse.py:274-279 | the forward loop of `_all_search` collects the missing keys in the dict's order, and raises AttributeError for a non-dict |
| Merge.MergeKeyNoOp | plugins/module_utils/parse.py:202-272 | one key changes nothing exactly when the target has the key and its value already holds the source value |
| Merge.EntriesNoOp | plugins/module_utils/parse.py:201 | the key loop changes nothing exactly when each key on its own changes nothing |
| Merge.EntriesNoOpEach | plugins/module_utils/parse.py:201 | in a key loop that changes nothing, no key on its own changes anything |
| Merge.EachKeyNoOpEntries | plugins/module_utils/parse.py:201 | a key loop none of whose keys changes anything changes nothing |
| Merge.ElementNoOp | plugins/module_utils/parse.py:226-261 | one list position changes nothing exactly when the target element already holds the source element |
| Merge.ListNoOp | plugins/module_utils/parse.py:225-261 | the list loop changes nothing exactly when the target is at least as long and every position already holds the source element |
| Merge.SelfSettled | plugins/module_utils/parse.py:201-272 | a well-formed value without nested lists, merged into itself, changes nothing |
| Merge.KeyTwice | plugins/module_utils/parse.py:202-272 | after one key has been merged without error, its value in the target already holds the source value |
| Merge.EntriesTwice | plugins/module_utils/parse.py:201-272 | after a key loop without error, every one of its keys is settled in the result |
| Merge.EntriesTwiceHead | plugins/module_utils/parse.py:201-272 | the later keys of a loop with unique keys leave the first key's settled value alone |
| Merge.ListTwice | plugins/module_utils/parse.py:225-261 | after the list loop without error, the target is at least as long and every position holds its source element |
| Merge.MergeTwice | plugins/module_utils/parse.py:201-272 | merging is idempotent: after a merge without error, merging the same source again assigns nothing and raises nothing (for a source without nested lists) |
| Merge.NestedListsBreakMergeTwice | plugins/module_utils/parse.py:226-233 | with a list inside a list, a merge can succeed once and then raise AttributeError on the second run, because `_all_search` is handed a list |
| Merge.EntriesWellFormed | plugins/module_utils/parse.py:201-272 | the key loop keeps a well-formed target well formed |
| Merge.KeyWellFormed | plugins/module_utils/parse.py:202-272 | one key keeps a well-formed target well formed |
| Merge.ListWellFormed | plugins/module_utils/parse.py:225-261 | the list loop keeps a well-formed target list well formed |
| Merge.ElementWellFormed | plugins/module_utils/parse.py:226-261 | one list position keeps a well-formed target list well formed |
| Merge.MergeKeepsWellFormed | plugins/module_utils/parse.py:194-272 | `compare_dicts` of a well-formed source into a well-formed target leaves it well formed |
| Merge.MergeInto | plugins/module_utils/parse.py:194-272 | `compare_dicts` only ever sets `changed`: a merge that reports no change leaves the target as it was; a dict target stays a dict; a non-empty source merged without error had a dict target |
| Parser.ResolvedSetSucceeds | plugins/module_utils/parse.py:121-164 | along a path whose subscripts all succeed, a set succeeds or raises the TypeError of assigning into a string |
| Parser.CheckedSetFailsOnlyOnStrings | plugins/module_utils/parse.py:176-180 | after `_check` passes in strict or add mode, the set of `_update` on the same key can fail only with the TypeError of assigning into a string |
| Parser.AddEmptyMapReportsNoChange | plugins/module_utils/parse.py:73-80 | add mode on a missing key first stores `{}` there, so setting a value equal to `{}` creates the key but reports no change |
| Parser.AddStoresEmptyMap | plugins/module_utils/parse.py:72-80 | add mode on a missing plain key stores `{}` under it and raises nothing |
| Parser.SetOverEmptyMap | plugins/module_utils/parse.py:158-162 | setting a key that holds `{}` stores the value and reports a change exactly when the value differs from `{}` |
| Parser.SetWritesAddressedSlot | plugins/module_utils/parse.py:121-164 | along a path that resolves to `x`, a set reports a change exactly when `x` differs from the value; without a change the document is untouched, and with one the path now resolves to the value |
| Parser.ApplyItems | plugins/module_utils/parse.py:175-183 | the `update` loop: without add mode, a run that raises nothing and reports no change leaves the document as it was |
| Parser.RunOutcome | plugins/module_utils/parse.py:173-187 | `run` never loses a change reported by an update, raises nothing only when every update succeeded, and without add mode a run that raises nothing and reports no change leaves the document as it was |
| Parser.ApplyKeepsWellFormed | plugins/module_utils/parse.py:175-183 | the `update` loop with well-formed values keeps a well-formed document well formed |
| Parser.RunKeepsWellFormed | plugins/module_utils/parse.py:173-188 | `run` with well-formed `update` values and `values` keeps a well-formed document well formed |
| Parser.NavStepIsSegmentHop | plugins/module_utils/parse.py:124-130 | `_update` navigates a segment with the same subscript that `_check` resolves it with |
| Parser.YamlParser.constructor | plugins/module_utils/parse.py:16-22 | a parser over a loaded document starts unchanged, with the given `update`, `values` and `overwrite` |
| Parser.YamlParser.Check | plugins/module_utils/parse.py:57-100 | the cursor loop of `_check`, writing in place, leaves the document and raises the error that `CheckWalk` gives |
| Parser.YamlParser.CheckStep | plugins/module_utils/parse.py:60-100 | one pass of the `_check` loop either ends the walk with the document and error `CheckWalk` gives, or moves the cursor so that the rest of the walk still gives them |
| Parser.YamlParser.CheckSegmentAt | plugins/module_utils/parse.py:61-100 | one pass converts the segment, does what `CheckSegment` says and writes the new cursor node at the cursor's location |
| Parser.YamlParser.CheckPlainAt | plugins/module_utils/parse.py:62-80 | the loop body for a plain segment does what `CheckPlain` says and writes the new cursor node at the cursor's location |
| Parser.YamlParser.CheckIndexedAt | plugins/module_utils/parse.py:81-100 | the loop body for `key[index]` does what `CheckIndexed` says and writes the new cursor node at the cursor's location |
| Parser.YamlParser.Update | plugins/module_utils/parse.py:121-164 | `_update` returns the flag and leaves the document that `UpdateWalk` gives; on an error the document is untouched |
| Parser.YamlParser.UpdateLast | plugins/module_utils/parse.py:131-164 | the last segment sets or pops at the cursor as `Terminal` says, and writes through the cursor's location |
| Parser.YamlParser.Run | plugins/module_utils/parse.py:173-187 | `run` leaves the document, the `changed` flag and the escaping error that `RunOutcome` gives |
| Parser.YamlParser.ApplyUpdates | plugins/module_utils/parse.py:175-183 | the `update` loop checks then applies each item, stops at the first error, and sets `changed` exactly when an item reported a change |
| Parser.YamlParser.ApplyItem | plugins/module_utils/parse.py:176-182 | one item checks then updates: an error ends the run with the document as it stands, otherwise the run goes on from the updated document, and `changed` is set when the update reported a change |
| Parser.YamlParser.CompareDicts | plugins/module_utils/parse.py:194-272 | the key loop of `compare_dicts` produces `MergeEntries`'s target and error, and sets `changed` exactly when an assignment happened |
| Parser.YamlParser.CompareEntry | plugins/module_utils/parse.py:201-272 | one key of the loop either ends the merge with its error or leaves the rest of the loop to produce `MergeEntries`'s result |
| Parser.YamlParser.CompareKey | plugins/module_utils/parse.py:202-272 | one key of `compare_dicts` does what `MergeKey` says |
| Parser.YamlParser.CompareLists | plugins/module_utils/parse.py:225-261 | the list loop of `compare_dicts` produces `MergeList`'s target list and error |
| Parser.YamlParser.CompareListStep | plugins/module_utils/parse.py:225-261 | one position of the list loop either ends the merge with its error or leaves the rest of the loop to produce `MergeList`'s result |
| Parser.YamlParser.CompareElement | plugins/module_utils/parse.py:226-261 | one position of the list loop does what `MergeListElement` says |

## Left out

- Reading and saving the YAML file (`read`, `save`) are left out. The document is a
  parameter of the constructor. Comments, quoting and layout are not modelled.
- `plugins/modules/update_yaml.py`, the Ansible module around the parser, is not part of
  this model.
- The exception translation in `run` is left out. The model reports the error that escapes
  the loop; the Python code re-raises AttributeError and IndexError as `ParserError` and
  passes TypeError through.
- Aliasing is left out. Python's `compare_dicts` and `_check` mutate dicts that are shared
  with the document. The model holds the document by value and writes at locations. Nodes
  that appear twice in one document (YAML anchors) would be updated in only one place.
- Floating-point scalars, non-string mapping keys and comparisons across types (`1 == True`,
  `1 == 1.0`) are left out. Scalars are strings, integers, booleans and null, and `!=` in
  `compare_dicts` is structural equality.
- Merge.Search: the JMESPath query `[? key == \`value\`]` is abstracted as "some record is a
  dict whose entry `key` equals `value`". The JSON literal parsing of the backquoted value
  and JMESPath's type rules are left out.
- Merge.MergeListElement: a non-empty list element merged into a non-list target is
  reported as TypeError. Depending on the target, the Python code raises TypeError,
  AttributeError or IndexError, or inserts the list's elements as keys.
- Merge.MergeListElement: the branch of `compare_dicts` that appends the missing keys
  found by `_all_search` is unreachable, because `_all_search` is handed the source list
  and raises. The model takes only the raising path.
- Paths.Convert: the regular expression's `.` does not match a line break, so for a key
  containing a newline Python takes the key from the start of the line. The model takes
  everything before the bracket.
- The `added` and `removed` flags of an `update` item are booleans. `_update` tests
  `removed is True` while `_check` tests truthiness, and the two differ only for
  non-boolean flags.
