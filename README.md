# Procedure sequencer

This project models the procedure sequencer of PyLabTools (`pylabtools/ui/sequence.py`) and proves properties of it.

An experimenter builds a **sequence tree** in a `SequenceGroup`. Each node is named `"<position>: <parameter>"` and holds a text value. Below the user-created nodes, the group always keeps two entries of its own:
- `Level`, a text box holding a dotted index path such as `0.1.x`;
- `Remove`, a button.

The model covers these operations:
- `addNew` walks a level path and inserts a node at each `x`.
- `remove_child` detaches the node a path names and renumbers its siblings.
- `get_readable` / `get_node_str` write the tree as text: one line per node, indented by one tab per depth.
- `input_sequence` clears the tree and rebuilds it from such text. It recovers each node's path from the changes in tab count.
- `build_procedure_sequence_a` walks the tree depth first. It casts each value (`typecast`) into a running procedure dictionary and keeps a copy of that dictionary at every leaf.
- `build_procedure_sequence_b` expands every list value into one dictionary per combination (`itertools.product`, the first list key being the outermost loop).
- `update_procs_list` and `write_dict` are modelled as well.

Modules:

| module | file | what it holds |
|---|---|---|
| `Wrappers` | `wrappers.dfy` | `Option`, `Result` and `Outcome` (pass or the exception raised) |
| `Text` | `text.dfy` | the Python string operations the source uses: `split`, `strip`, counting, decimal conversion, `readlines` |
| `Tree` | `tree.dfy` | `Node`, index paths into the forest, Python list indexing, the invariant `GroupShape` of the group's children |
| `Editing` | `editing.dfy` | `addNew` and `remove_child` as functions of the children before the call, with their properties |
| `Groups` | `groups.dfy` | the class `SequenceGroup`, whose methods run the source's loops over its `entries` and are proved equal to `Editing` |
| `Serial` | `serial.dfy` | `get_node_str` and `get_readable`, and the pre-order they follow |
| `Values` | `values.dfy` | `typecast` and the part of `float()` it relies on |
| `Dicts` | `dicts.dfy` | Python's insertion-ordered `dict` |
| `Flattening` | `flattening.dfy` | `build_procedure_sequence_a` and `write_dict` |
| `Expansion` | `expansion.dfy` | `build_procedure_sequence_b`, `itertools.product` and `update_procs_list` |
| `Loader` | `loader.dfy` | `input_sequence` as a function of the lines read, and the save/load round trip |
| `Sequencer` | `sequencer.dfy` | the class `SequenceUI`: building, writing and loading the sequence |

The main results:
- **Save then load.** `Loader.SaveThenLoad` proves that loading the text `write_sequence` saves gives back the same tree. This holds for every tree whose nodes were named by `addNew`/`remove_child` and whose parameters and values contain no `:`, tab, line feed, carriage return or surrounding blanks.
- **Add then remove.** `Editing.AddThenRemove` proves that `addNew` followed by `remove_child` at the new node's path restores the tree.
- **Flattening.** `Flattening.WalkMeaning` characterises the depth-first walk by one pass over the pre-order. The running dictionary is never reset between siblings, so a copy is not the settings along the path from the root to its leaf. `Flattening.SiblingOverridesAncestor` shows a leaf whose copy holds an earlier sibling's value for a parameter, not its parent's.
- **Expansion.** `Expansion.ExpandOneEntries`, `ProductMembers`, `ProductComplete` and `ProductOrder` prove the expansion complete and ordered.
- **The methods.** Each method of the two classes is proved to compute exactly the specification function its loop implements.

## Model

| member | source | states |
|---|---|---|
| `Editing.AddNewStep` | pylabtools/ui/sequence.py:47-55 | one iteration of `addNew`'s loop keeps the loop invariant: the walked path is valid, `insert_pos` is the sibling count (before `Level`/`Remove` at the top), and a node inserted into `child` bears the expected name |
| `Editing.ResolveFrom` | pylabtools/ui/sequence.py:64-66 | a walk of `children[int(lvl)]` steps that succeeds reaches a valid index path that extends the start by one index per segment |
| `Editing.ResolveWritten` | pylabtools/ui/sequence.py:64-66 | walking the decimal text of an existing index path reaches exactly that path |
| `Editing.AddNewAt` | pylabtools/ui/sequence.py:39-55 | for a level that resolves to a node and then ends in `x`, `addNew` inserts a leaf `"<n>: <typ>"` with value `val` at the end of that node's children, where n is the sibling count and at the top the leaf goes just before `Level`/`Remove`; if a sibling already has that name, the tree is unchanged and the duplicate name is raised |
| `Editing.AddNewFails` | pylabtools/ui/sequence.py:47-55 | when the numeric segments of a level fail to resolve (a non-integer or an index out of range), `addNew` raises that error and the tree is unchanged, whatever segments follow |
| `Editing.NewNameFree` | pylabtools/ui/sequence.py:45-50 | in a well-formed group, the name `addNew` gives a new node is never one a sibling already has |
| `Editing.InsertKeepsShape` | pylabtools/ui/sequence.py:49-50 | inserting the new node keeps the group's shape: `Level`/`Remove` last, every other node named after its position |
| `Editing.InsertedNameTaken` | pylabtools/ui/sequence.py:48-50 | after an insertion, a second `x` in the same node finds its name already taken |
| `Editing.AddNewKeepsShape` | pylabtools/ui/sequence.py:39-55 | every run of `addNew`, failing or not, leaves the group's children in shape |
| `Editing.RenameFromStart` | pylabtools/ui/sequence.py:76-81 | on siblings each labelled with its own position or the next one (one node was just detached), the renaming loop names every unreserved child `"<i>: <parameter>"` after its new position |
| `Editing.RenumberWellFormed` | pylabtools/ui/sequence.py:76-81 | the renumbered siblings are well formed again |
| `Editing.LabelledReady` | pylabtools/ui/sequence.py:76-81 | on siblings already named after their own positions (as after a failed or reserved removal), the renaming loop changes nothing |
| `Editing.RemoveAtTop` | pylabtools/ui/sequence.py:69-81 | removing a top-level entry detaches it unless it is `Level` or `Remove`, renumbers the rest, and keeps the shape |
| `Editing.RemoveBelow` | pylabtools/ui/sequence.py:69-81 | removing a nested node detaches it from its parent, renumbers its siblings, and keeps the shape |
| `Editing.RemoveChildSpec` | pylabtools/ui/sequence.py:57-81 | `remove_child` raises the walk's error with the tree unchanged, or else detaches the node the level names and renumbers its siblings; the shape is kept either way |
| `Editing.RemoveInserted` | pylabtools/ui/sequence.py:49-50 | removing the node just inserted at the end of a node's children gives back the tree before the insertion |
| `Editing.AddThenRemove` | pylabtools/ui/sequence.py:39-81 | `addNew` with a level ending in `x` succeeds, and `remove_child` with the new node's index path then restores the tree exactly |
| `Groups.SequenceGroup.constructor` | pylabtools/ui/sequence.py:24-34 | a new group holds only `Level`, reading `x`, and `Remove` |
| `Groups.SequenceGroup.SetLevel` | pylabtools/ui/sequence.py:29 | typing into the `Level` box changes only its value and keeps the shape |
| `Groups.SequenceGroup.AddNew` | pylabtools/ui/sequence.py:39-55 | the in-place loop leaves exactly the children and outcome of `Editing.AddNew`, reading the `Level` box when no level is given, and keeps the shape |
| `Groups.SequenceGroup.Advance` | pylabtools/ui/sequence.py:47-55 | one loop iteration on the group's children equals `Editing.AddNewStep`, and a failing one changes nothing |
| `Groups.SequenceGroup.RemoveChild` | pylabtools/ui/sequence.py:57-81 | the in-place removal leaves exactly the children and outcome of `Editing.RemoveChild` for the `Level` text, and keeps the shape |
| `Groups.SequenceGroup.Detach` | pylabtools/ui/sequence.py:61-81 | on given children and `Level` segments, the walk, the detach and the renaming give exactly `Editing.RemoveChild`, error path included |
| `Groups.SequenceGroup.Resolve` | pylabtools/ui/sequence.py:61-66 | the walk loop finds the index path of `Editing.ResolveFrom`, or raises its error |
| `Groups.SequenceGroup.RenameSiblings` | pylabtools/ui/sequence.py:76-81 | the renaming loop computes the renaming of `Editing.RenameFrom` |
| `Serial.GetNodeStrPreorder` | pylabtools/ui/sequence.py:83-91 | `get_node_str` appends one line `"<name>: <value>"` per node of the subtrees, in pre-order, indented by its depth in tabs |
| `Serial.PreorderSize` | pylabtools/ui/sequence.py:83-91 | the pre-order lists every node once, and never above the starting depth |
| `Serial.ReadableSkipsReserved` | pylabtools/ui/sequence.py:98-99 | `Level` and `Remove` contribute nothing to the text |
| `Serial.ReadableIsPreorder` | pylabtools/ui/sequence.py:93-102 | `get_readable` is the concatenation of the pre-order lines of the user-created nodes, one line per node |
| `Values.ParseFloat` | pylabtools/ui/sequence.py:275 | `float()` yields only floats: a finite number, an infinity or NaN |
| `Values.BracketNotFloat` | pylabtools/ui/sequence.py:275-277 | text starting with `[` is never a float, so bracketed text reaches the list branch |
| `Values.FloatOfDecimal` | pylabtools/ui/sequence.py:275 | `float()` reads the literal `w.f` (digits `w`, at least one, and digits `f`) as the number `w + f * 10^-len(f)` |
| `Values.FloatOfExponent` | pylabtools/ui/sequence.py:275 | `float()` reads `w.fe<k>` (digits `w`, at least one, digits `f`, and the exponent `k` of either sign written by `str`) as `(w + f * 10^-len(f)) * 10^k` |
| `Values.TypecastPoint` | pylabtools/ui/sequence.py:269-275 | the decimal literal `w.f` (digits `w`, at least one, and digits `f`) is cast to the number `w + f * 10^-len(f)` |
| `Values.TypecastMinusPoint` | pylabtools/ui/sequence.py:269-275 | `-w.f` is cast to the negation of that number: the sign is set aside and applied to the float read from the rest |
| `Values.TypecastDoubleMinus` | pylabtools/ui/sequence.py:269-275 | `--n` is cast to `n`: the `-` set aside by `typecast` and the one `float()` reads cancel out |
| `Values.TypecastInt` | pylabtools/ui/sequence.py:263-286 | the decimal text of any integer, negative ones included, is cast to that number |
| `Values.TypecastList` | pylabtools/ui/sequence.py:277-281 | bracketed text becomes a list with one element per comma plus one, each the cast of the stripped piece; a `-` before the brackets is dropped |
| `Values.TypecastIntList` | pylabtools/ui/sequence.py:277-281 | `[i0,i1,...]` is cast to the list of those numbers |
| `Values.TypecastEmptyBrackets` | pylabtools/ui/sequence.py:277-281 | `[]` is cast to a one-element list holding the empty text, not to an empty list |
| `Values.TypecastWord` | pylabtools/ui/sequence.py:269-286 | a word starting with a letter other than `i` or `n` and not containing `np` comes back as the same text, with or without a leading `-` |
| `Dicts.Put` | pylabtools/ui/sequence.py:155 | `d[k] = v` makes `k` read `v`, changes no other key, and appends `k` only when it is new |
| `Dicts.PutDistinct` | pylabtools/ui/sequence.py:155 | assignment keeps the keys distinct |
| `Dicts.GetPutAll` | pylabtools/ui/sequence.py:177 | after `update`, a key holds the value of its last pair, or its old value when no pair names it |
| `Dicts.PutAllFresh` | pylabtools/ui/sequence.py:177 | `update` with new, distinct keys appends the pairs in order |
| `Flattening.Tag` | pylabtools/ui/sequence.py:154 | the parameter read from a node's name is stripped |
| `Flattening.TagOfNewName` | pylabtools/ui/sequence.py:154 | the parameter read back from a name `addNew` wrote is the `typ` it was given |
| `Flattening.WellFormedTagged` | pylabtools/ui/sequence.py:154 | every name in a well-formed tree contains `:`, so `split(':')[1]` never fails |
| `Flattening.BuildA` | pylabtools/ui/sequence.py:142-156 | the recursive walk with its loop returns the dictionary and list of copies of `Flattening.Walk` |
| `Flattening.WalkMeaning` | pylabtools/ui/sequence.py:142-156 | the walk visits the nodes in pre-order; its dictionary is every visit applied in that order; it appends one copy per leaf, and the j-th copy is the dictionary right after that leaf's visit |
| `Flattening.LeafSetsOwnTag` | pylabtools/ui/sequence.py:155 | right after a node's visit, its parameter holds the cast of its value |
| `Flattening.AccumKeepsKeys` | pylabtools/ui/sequence.py:153-156 | a parameter set earlier in the walk stays set in every later dictionary |
| `Flattening.SiblingOverridesAncestor` | pylabtools/ui/sequence.py:142-156 | in the tree `0: tag` = x over the leaves `0: tag` = y and `1: other` = z, the copy taken at the second leaf reads `tag` as the cast of `y`, the sibling's value, because `proc_dict` is shared by the whole walk and never reset |
| `Flattening.WriteDict` | pylabtools/ui/sequence.py:288-293 | `write_dict` assigns the subtree's names to values children first, then the node itself |
| `Flattening.WriteDictOwnEntry` | pylabtools/ui/sequence.py:293 | afterwards the node's own name holds its own value |
| `Expansion.ListKeys` | pylabtools/ui/sequence.py:165 | the list keys are keys of the dictionary; every entry holding a list has its key listed, and every listed key has an entry holding a list |
| `Expansion.ListKeysExact` | pylabtools/ui/sequence.py:165 | in a dictionary, a key is a list key exactly when its value is a list |
| `Expansion.NoListKeys` | pylabtools/ui/sequence.py:165 | a dictionary with no list value has no list keys |
| `Expansion.ListKeysDistinct` | pylabtools/ui/sequence.py:165 | no key is listed twice |
| `Expansion.ListValuesAt` | pylabtools/ui/sequence.py:170 | the t-th list of values is the value of the t-th list key |
| `Expansion.ScalarGet` | pylabtools/ui/sequence.py:166 | the scalar part reads like the dictionary on every key that is not a list key |
| `Expansion.ProductSize` | pylabtools/ui/sequence.py:173 | the product has as many combinations as the product of the list lengths |
| `Expansion.ProductMembers` | pylabtools/ui/sequence.py:173 | every combination takes one element from each list, in list order |
| `Expansion.ProductComplete` | pylabtools/ui/sequence.py:173 | every such choice of one element per list is a combination |
| `Expansion.ProductOrder` | pylabtools/ui/sequence.py:173 | the first list is the outermost loop: combination `i = a * m + b`, with `m` the number of combinations of the other lists, is the first list's a-th element followed by the b-th combination of the rest |
| `Expansion.Zip` | pylabtools/ui/sequence.py:177 | `zip` pairs keys and values position by position, up to the shorter |
| `Expansion.BuildB` | pylabtools/ui/sequence.py:158-181 | the nested loops build exactly the expansion `Expansion.Expand` |
| `Expansion.ExpandOneEntries` | pylabtools/ui/sequence.py:163-179 | each expanded dictionary keeps every non-list entry and holds, under each list key, the element its combination picked from that key's list |
| `Expansion.ExpandNoLists` | pylabtools/ui/sequence.py:163-179 | a dictionary without list values comes out once and unchanged |
| `Expansion.ExpandEmptyList` | pylabtools/ui/sequence.py:173 | a dictionary with an empty list value vanishes from the expansion |
| `Expansion.UpdateProcsList` | pylabtools/ui/sequence.py:245-261 | the loops compute `Expansion.UpdatedProcs` |
| `Expansion.UpdatedList` | pylabtools/ui/sequence.py:249-255 | a list value multiplies the procedures: procedure p and element i give entry `p * n + i`, holding the element under `key` unless the procedure already had `key`, and every other entry of the procedure |
| `Expansion.UpdatedScalar` | pylabtools/ui/sequence.py:256-259 | any other value is set under `key` in every procedure, with all other entries unchanged |
| `Loader.Clear` | pylabtools/ui/sequence.py:212-214 | the clearing loop keeps only the group's own entries |
| `Loader.ClearShape` | pylabtools/ui/sequence.py:211-214 | clearing a group leaves exactly `Level` and `Remove` |
| `Loader.LoadRunKeepsShape` | pylabtools/ui/sequence.py:220-243 | reading lines keeps the group's shape, whether it stops early or not |
| `Loader.NextLevelFollows` | pylabtools/ui/sequence.py:220-239 | after a tree built so far, a line with d tabs gives a `level` that leads along the rightmost path to depth d and ends in `x`, and the new `top_level`/`sub_levels`/`tabs` describe the tree with that node added |
| `Loader.LineFields` | pylabtools/ui/sequence.py:240-242 | the line written for a node splits at `:` back into its parameter and its value |
| `Loader.LineShape` | pylabtools/ui/sequence.py:221-228 | a node's line at depth d holds exactly d tabs and starts with one exactly when d > 0 |
| `Loader.AddNewAppends` | pylabtools/ui/sequence.py:243 | the `addNew` call for such a level appends the new leaf at depth d of the rightmost path and keeps the shape |
| `Loader.LoadForest` | pylabtools/ui/sequence.py:220-243 | reading the lines of a forest at depth d appends that forest at depth d of the rightmost path, then goes on with the next lines |
| `Loader.ReadSaved` | pylabtools/ui/sequence.py:93-102 | reading the saved text back into lines gives the pre-order lines |
| `Loader.LoadFromBase` | pylabtools/ui/sequence.py:211-219 | loading begins from `Level` and `Remove` alone, with `top_level = -1` and no `sub_levels` |
| `Loader.LoadSaved` | pylabtools/ui/sequence.py:207-243 | loading the lines of a saved tree, and then more lines, rebuilds that tree before reading the rest |
| `Loader.SaveThenLoad` | pylabtools/ui/sequence.py:199-243 | loading the text that was saved gives back the same tree, with no exception |
| `Loader.LoadStopsAtBadLine` | pylabtools/ui/sequence.py:240-242 | an unindented line without `:` after a saved tree stops loading with the tree rebuilt so far, and the lines after it are ignored |
| `Sequencer.SequenceUI.constructor` | pylabtools/ui/sequence.py:113-133 | the panel starts with a fresh, empty sequence group |
| `Sequencer.SequenceUI.BuildProcedureSequence` | pylabtools/ui/sequence.py:183-197 | the signal carries the tree without `Level` and `Remove` and the expansion of its flattening; an empty tree gives one empty procedure |
| `Sequencer.SequenceUI.WriteSequence` | pylabtools/ui/sequence.py:199-205 | the text written is one line per user-created node, in pre-order |
| `Sequencer.SequenceUI.InputSequence` | pylabtools/ui/sequence.py:207-243 | loading replaces the group's children by `Loader.Load` of the lines and keeps the shape; the first exception ends it |
| `Sequencer.SequenceUI.ClearSequence` | pylabtools/ui/sequence.py:211-214 | the clearing loop leaves only `Level` and `Remove` |
| `Sequencer.SequenceUI.NextLine` | pylabtools/ui/sequence.py:220-239 | the level computation for one line is `Loader.NextLevel` |
| `Sequencer.SequenceUI.Indented` | pylabtools/ui/sequence.py:226-238 | the `sub_levels` update, popping once per tab dropped, is `Loader.Indent`; popping an empty stack or indexing past it raises |

## Left out

- The Qt signals, buttons and panel layout. `new_sequence` is modelled as the results of `BuildProcedureSequence`; `pause_proc_sequence` and `abort_proc_sequence` carry no logic.
- File I/O in `write_sequence` and `input_sequence`. The path, `open`, and `readlines`' newline translation are left out. The text written is returned, and the lines read are a parameter, split after each `\n`. Because of that translation, `Loader.SaveThenLoad` is stated only for text without `\r`.
- pyqtgraph is not part of this model. Its behaviour is modelled where the source relies on it:
  - `insertChild` raises on a duplicate sibling name;
  - `setName` keeps the old name when a sibling already has the new one;
  - `children()` returns a copy;
  - `getValues()` is the ordered tree of names and values.
  - `autoIncrementName` is not modelled; the source never sets it.
- `SequenceGroup`'s `addList` option and the constructor's `params`. They only feed pyqtgraph's Add menu.
- `Values.Typecast`: `eval` on text mentioning `np` is kept symbolic as `Evaluated(text)`, and NumPy is not modelled.
- `Values.ParseFloat`: floats are exact rationals with no rounding to a double, and `-0.0` is the same as `0.0`. Underscores between digits and non-ASCII digits are not accepted, though Python's `float()` accepts them. The white space around the literal is that of `str.strip()`, so the control characters `\x1c`-`\x1f` are stripped, where `float()` rejects them.
- `Text.ParseInt`: reads ASCII digits only. Python's `int()` also accepts underscores between digits (`int("1_0")` is 10) and non-ASCII decimal digits, and it rejects the control characters `\x1c`-`\x1f` that `Text.Strip` removes. A `Level` segment written that way raises `NotAnInteger` in the model where Python would index with it.
- `Expansion.UpdateProcsList` requires the value not to be `Evaluated`. Whether a NumPy object is iterable cannot be decided without NumPy.
- `Expansion.UpdateProcsList` threads the procedures as values. The source's scalar branch mutates the dictionaries in place and returns the same list; that aliasing is not modelled.
- `Flattening.BuildA` threads `proc_dict` and `sequence_list` as values instead of mutating shared objects. `deepcopy` becomes taking the value.
- `Groups.SequenceGroup.AddNew`: `typ=None` is not modelled. It would only raise a `TypeError` on concatenation, and every caller passes a type.
- Nodes below `Level` or `Remove` are kept like any other node. A path such as `-1.x` reaches them. Writing and building skip them, and clearing keeps them. How pyqtgraph would display them is not modelled.
- A failed load is not rolled back: `input_sequence` stops at the first exception and keeps the nodes added so far (`Loader.LoadStopsAtBadLine`).
- `Loader.SaveThenLoad` assumes parameters and values without `:`, tab, line feed, carriage return or surrounding blanks, and names in the form `addNew` gives them. Other trees do not survive the text format: a value `a:b` loads back as `a`, and a value `a\rb` is read back as two lines, because text-mode `readlines` also ends a line at `\r`, and the second line then raises.
