# QJsonModel in Dafny

This project models `QJSONModel.py`, a Qt item model that shows a parsed JSON document
(Python `dict`/`list` values) as an editable two-column tree (key and value). It covers two
classes:

- `QJsonTreeItem`, one tree node. It holds a key, a value, a type tag, a list of children and
  a parent reference. Its operations are `appendChild`, `removeChild`, `child`, `childCount`,
  `row` and the recursive `load`.
- `QJsonModel`, which owns the root item and exposes it to a view. Its operations are `load`,
  `clear`, `json`/`genJson`, `data`, `setData`, `insertRow`, `insertRows`, `removeRows`,
  `rowCount`, `columnCount`, `index` and `parent`.

## How the model is built

- **Items and the arena.** Items live in an arena, a `seq<Item>` held by the class
  `JsonModel.QJsonModel` next to the handle of the root item.
  - A handle is a position in the arena. Child lists and parent references are handles.
  - Every child is stored after its parent (`JsonTreeItem.Ordered`), so `genJson` terminates
    on every ordered arena.
  - An item taken out of its parent by `removeRows` stays in the arena, detached. So do the
    items of the tree that `load` replaces: the new tree is stored after them.
- **Arena invariant.** `JsonTreeItem.WellFormedArena`, which every operation keeps, says:
  - child lists and parent references agree;
  - no child list repeats an item;
  - the children of a `list` item have ordinal keys.
- **Dense keys.** `JsonTreeItem.Dense` is the stronger property that array keys are `0, 1, ...`
  in child order. `load`, `insertRows`, `setData` and `removeRows` with a count of 1 keep it.
- **Index objects.** A `QModelIndex` is a value `(row, column, item)`; `QModelIndex()` is
  `(-1, -1, None)`.
- **Exceptions.** A Python exception the code can raise becomes a `Raised` result:
  - `load` of a non-container fails its `assert` (AssertionError);
  - the first loop of `removeRows` can run off the shrinking child list (IndexError);
  - `setData` on an index without an item, or a key edit on the root item (AttributeError);
  - `parent()` of an index whose parent item was detached makes `list.index` fail (ValueError).
- **The two `None` type tags.** Python's `type(None)` is the type `load` records for a null.
  `None` is the initial type and the type `setData` stores for "null". The model keeps them
  apart as `NoneType` and `NoType`.
- **Imperative parts.** The parts of the source that change state in place are methods:
  - `QJsonTreeItem.load` loops over the elements and appends them;
  - `insertRows`, `removeRows`, `setData` and `load` update the model.

  The two loops of `removeRows` are methods with loop invariants. They run on a copy of the
  child list and of the arena, and the result is stored back. Each is proved against a
  function (`Removal.Steps`, `Removal.ShiftKeys`) whose properties are proved as lemmas.

### Where the code and its description differ

The model follows the code in each case:

- **No sorting.** The module docstring says objects are sorted by default. The code's default
  is `sort=False`, and `QJsonModel.load` never passes `sort`, so entries keep the dict's
  order.
- **`insertRows` inserts one item.** It appends exactly one new item whatever `count` is.
  `count` only decides whether the call fails.
- **`removeRows` with a count above 1.** Turn `n` of the first loop removes whatever child is
  at position `n` by then, so it takes out every second child.
  - When `row + 2(count - 1)` reaches the child count, `child(n)` raises IndexError. The
    removals made so far stay done.
  - When all turns succeed under a `list`, the second loop lowers by `count` the keys of the
    children from position `row + count - 1` on. Keys are dense again only for a count of 1.
- **`setData` returns True even when it ignores the edit.** This happens for a `list` or
  `dict` item's value column, and for the key of an item held by a `list`.
- **Only the exact text "null" becomes None.** "Null" stays a string.
- **A failed call can leave changes behind.** `removeRows` stops part-way when it raises
  IndexError, so a failing call does not always leave the tree unchanged.

## Model

| member | source | states |
|---|---|---|
| JsonValue.SetItemAppends | QJSONModel.py:336-339 | `document[key] = value` with a key the dict does not hold appends the entry at the end |
| JsonValue.SetItemOverwrites | QJSONModel.py:336-339 | assigning a key the dict holds replaces that entry's value in place and keeps its position |
| JsonValue.SetItemNames | QJSONModel.py:336-339 | the dict's keys after an assignment are the old keys plus the assigned one |
| JsonValue.SetItemUnique | QJSONModel.py:336-339 | an assignment keeps a dict's keys unique |
| JsonValue.SetItem | QJSONModel.py:339 | an assignment adds at most one entry |
| JsonTreeItem.IndexOf | QJSONModel.py:56 | `list.index` returns a position holding the item, with no earlier occurrence of it |
| JsonTreeItem.IndexOfFirst | QJSONModel.py:56 | an element with no earlier occurrence is found at its own position |
| JsonTreeItem.RemoveChildCounts | QJSONModel.py:42-43 | `removeChild(item)` takes exactly one occurrence of the item out of the child list and keeps every other child |
| JsonTreeItem.IndexOfDistinct | QJSONModel.py:56 | in a child list without repeats, `index` of the element at `i` is `i` |
| JsonTreeItem.AppendChild | QJSONModel.py:39-40 | `appendChild` adds the item at the end of the child list and changes no other item |
| JsonTreeItem.AppendFresh | QJSONModel.py:39-40 | appending a new item made for the parent keeps the arena well formed, and keeps array keys dense when its key is the old child count |
| JsonTreeItem.Child | QJSONModel.py:45-46 | `child(row)` is an item whose parent is the item, and whose `row()` is `row` |
| JsonTreeItem.Row | QJSONModel.py:54-58 | `row()` is 0 for an item without a parent; otherwise a position in the parent's child list that holds the item, with no earlier occurrence |
| JsonTreeItem.AddLeaf | QJSONModel.py:86 | storing a new item without children keeps the arena well formed |
| JsonTreeItem.DenseExtend | QJSONModel.py:95-108 | items added by a nested `load` leave the array keys of older items as they were |
| JsonTreeItem.Retag | QJSONModel.py:98-99 | setting a loaded child's key and type before `appendChild` keeps the arena well formed and array keys dense |
| JsonTreeItem.RepresentsFrame | QJSONModel.py:95-108 | what a loaded subtree holds is not affected by later changes to other items |
| JsonTreeItem.LoadStepShape | QJSONModel.py:104-108 | one turn of `load`'s loop keeps the arena well formed and the new item's array keys dense |
| JsonTreeItem.LoadStepChildren | QJSONModel.py:95-108 | one turn of `load`'s loop adds a child holding the next element, with its key and type, and keeps the earlier children |
| JsonTreeItem.LoadItem | QJSONModel.py:84-114 | `load` builds a new item keyed "root" with the given parent. A scalar becomes the item's value and type. A container gets one child per element in iteration order, keyed by index or dict key and tagged with the element's type. Older items are untouched and array keys are dense. |
| Serialisation.GenItemsMatch | QJSONModel.py:342-347 | when every child serialises to the matching element, the `list` branch gives the elements in order |
| Serialisation.GenMembersMatch | QJSONModel.py:335-340 | when the children carry a dict's unique keys in order and serialise to its values, the `dict` branch rebuilds the dict |
| Serialisation.LoadRoundTrip | QJSONModel.py:332-350 | round trip: `genJson` of a subtree built by `load`, tagged with the value's type, is that value |
| Serialisation.GenJsonFrame | QJSONModel.py:332-350 | `genJson(item)` depends only on the item and the items stored after it |
| Serialisation.GenItemsFrame | QJSONModel.py:343-346 | the first n turns of the `list` loop read only the first n children's subtrees |
| Serialisation.GenMembersFrame | QJSONModel.py:336-339 | the first n turns of the `dict` loop read only the first n children's subtrees |
| Serialisation.GenJsonLeaf | QJSONModel.py:332-350 | an item without children serialises to `{}`, `[]` or its stored value |
| Serialisation.AppendedOrdered | QJSONModel.py:165 | appending a new item keeps every child stored after its parent |
| Serialisation.AppendedJson | QJSONModel.py:332-350 | after appending a new item, `genJson` of the parent is: the old list plus the new item's value, for a `list`; the old dict with the new key set, for a `dict`; unchanged, otherwise |
| EditText.DecimalRoundTrip | QJSONModel.py:254-255 | `int()` of a number's decimal spelling gives the number back |
| EditText.Infer | QJSONModel.py:253-268 | the inferred value is an int exactly for digit text, and then the text's decimal value; None exactly for "null", True exactly for "true"/"True", False exactly for "false"/"False", and the text itself exactly when it is none of these. The type is the value's type, or None for "null". |
| EditText.InferDecimal | QJSONModel.py:254-256 | typing a number's decimal spelling stores that number as an int |
| Removal.Steps | QJSONModel.py:180-181 | each turn of the first loop removes one child |
| Removal.StepsKeep | QJSONModel.py:180-181 | after k turns, exactly the children first at `row, row + 2, ..., row + 2(k - 1)` are gone and the others keep their order |
| Removal.KeptBefore | QJSONModel.py:180-181 | children before the next removal position stay where the previous turn left them |
| Removal.KeptAfter | QJSONModel.py:180-181 | children after the next removal position move one place down |
| Removal.RemovedAt | QJSONModel.py:43 | `list.remove` at position i shifts the later elements down by one |
| Removal.KeepOneMore | QJSONModel.py:180-181 | one more turn preserves the description of which original children remain |
| Removal.NextIsFirst | QJSONModel.py:181 | the child the next turn removes occurs only once, so `remove` takes out that position |
| Removal.KeptIncreasing | QJSONModel.py:180-181 | the remaining children keep their original relative order |
| Removal.StepsSubList | QJSONModel.py:180-181 | the first loop only takes children out and leaves no repeats |
| Removal.RemoveOneStep | QJSONModel.py:180-181 | with a count of 1 the loop removes exactly the child at `row` |
| Removal.ReplaceChildren | QJSONModel.py:180-181 | replacing a child list by a sublist of it keeps the arena well formed, and keeps array keys dense when the item is not a `list` |
| Removal.ShiftKeysShape | QJSONModel.py:183-185 | the second loop lowers by `count` the ordinal key of each listed child, and changes no other field and no other item |
| Removal.KeysLoweredCons | QJSONModel.py:183-185 | lowering the first child's key and then the rest lowers the keys of the whole list |
| Removal.TailKeys | QJSONModel.py:183-184 | the children of a `list` that the second loop visits are distinct and have ordinal keys |
| Removal.ShiftedFrame | QJSONModel.py:180-185 | after both loops no item's parent, value or type has changed, and only the parent's child list has changed |
| Removal.ShiftedRemoval | QJSONModel.py:180-185 | under a `list`, both loops keep the arena well formed. With a count of 1 they remove exactly the child at `row` and keep array keys dense. |
| Removal.ShiftKeysWellFormed | QJSONModel.py:183-185 | lowering ordinal keys keeps the arena well formed |
| Removal.RemoveOneKeys | QJSONModel.py:182-185 | with a count of 1, every remaining child of the `list` has the key of its new position |
| Removal.RemoveOneDenseAt | QJSONModel.py:182-185 | the shortened list's keys are 0, 1, ... |
| Removal.RemoveOneDenseOther | QJSONModel.py:182-185 | an item other than the `list` keeps dense keys, since none of its children was renumbered |
| Removal.RemoveOneDenseOthers | QJSONModel.py:182-185 | all items other than the `list` keep dense keys |
| Removal.ShiftedByOne | QJSONModel.py:183-185 | with a count of 1, exactly the listed items have their key lowered by one |
| Removal.RemoveOneLater | QJSONModel.py:182-185 | the children after `row` belong to the `list` and have ordinal keys |
| Removal.RemoveOneDense | QJSONModel.py:180-185 | `removeRows(row, 1, list)` leaves every array's keys dense |
| Removal.TurnsDone | QJSONModel.py:180-181 | the number of turns done before IndexError brings `row + 2k` to the list length or one past it |
| Removal.Removed | QJSONModel.py:180-181 | after the first loop the arena is still well formed; only the parent's child list changed; array keys stay dense when the parent is not a `list` |
| Removal.AfterRemoval | QJSONModel.py:176-185 | after both loops: with a count of 1 exactly the child at `row` is gone; values and types are unchanged; no key changes under a non-`list`; array keys stay dense for a count of 1 or a non-`list` parent |
| Removal.SecondAtRow | QJSONModel.py:180-181 | after two or more turns of the first loop, position `row` holds the child that stood at `row + 1` |
| Removal.UnshiftedBefore | QJSONModel.py:183-185 | the second loop leaves the children before its start position unchanged, and changes no child list |
| Removal.NotDenseAboveOne | QJSONModel.py:180-185 | with a count of 2 or more under a `list` whose keys were dense, both loops leave them not dense: position `row` then holds the child first at `row + 1`, whose key the second loop does not lower |
| Removal.RemovedOneDense | QJSONModel.py:180-185 | with a count of 1 under a `list`, both loops together remove the child at `row` and keep array keys dense |
| Removal.LowerKeys | QJSONModel.py:183-185 | the second loop's result is `ShiftKeys` of the children from `row + count - 1` on |
| Removal.RemoveTurns | QJSONModel.py:180-181 | the first loop completes iff `row + 2(count - 1)` is below the child count. Its result is `Steps` after `count` turns, or after `TurnsDone` turns when `child(n)` raises IndexError. |
| Removal.RemoveFrom | QJSONModel.py:180-185 | both loops together: when every turn stays in range the result is `AfterRemoval`, otherwise the arena after the turns done before IndexError (`Removed` with `TurnsDone` turns) |
| JsonModel.QJsonModel.constructor | QJSONModel.py:117-121 | a new model holds one root item, type None, with no children |
| JsonModel.QJsonModel.Load | QJSONModel.py:192-212 | a non-container raises AssertionError and changes nothing. Otherwise a new root item is stored after the old items, which stay unchanged; it is keyed "root", tagged with the document's type and holds the document; the new tree's array keys are dense, and dense keys elsewhere stay dense; `genJson` of the root gives the document back. |
| JsonModel.QJsonModel.Clear | QJSONModel.py:123-124 | after `clear()` the root is a new empty `dict`, the old items stay unchanged, and `json()` is `{}` |
| JsonModel.QJsonModel.Index | QJSONModel.py:286-299 | the index is valid iff row and column are in range. A valid index keeps row and column and points at a child of the parent's item, held at that row. An invalid one is `QModelIndex()`. |
| JsonModel.QJsonModel.ParentOfIndex | QJSONModel.py:301-311 | `parent(index(row, column, p))` is `p` for a valid `p`, and `QModelIndex()` under the root item |
| JsonModel.QJsonModel.DisplayedValue | QJSONModel.py:229-240 | the value column shows a childless item's stored value, which is what `json` gives for it unless it is a `dict` or `list` |
| JsonModel.QJsonModel.ArrayKeyIsRow | QJSONModel.py:235-237 | with dense keys, the key column of an item held by a `list` shows its row |
| JsonModel.PlaceholderKey | QJSONModel.py:152-160 | the new item's key is an ordinal exactly when the target is a `list`, so a `list`'s children keep ordinal keys |
| JsonModel.QJsonModel.InsertRows | QJSONModel.py:129-168 | False and no change for a count of 0 or less or a negative current row. Otherwise one new item is appended to the target, with parent the target, the placeholder key and value, and the given type. Array keys stay dense. |
| JsonModel.QJsonModel.InsertRow | QJSONModel.py:126-127 | `insertRows` with a count of 1 |
| JsonModel.QJsonModel.InsertedJson | QJSONModel.py:214-227 | after an insertion the new item is the target's last child, and `json` of the target gains its placeholder value (`list`) or key (`dict`) |
| JsonModel.QJsonModel.RemoveRows | QJSONModel.py:170-190 | False and no change when the range check fails. Otherwise: `AfterRemoval` and True when all turns stay in range, and the partial `Removed` state with IndexError when they do not. A count of 1 keeps array keys dense; a count of 2 or more that completes under a `list` leaves them not dense. |
| JsonModel.QJsonModel.SetData | QJSONModel.py:245-277 | False for empty text or a role other than the edit role. Value column: the inferred value and type, except that a `list`/`dict` item is unchanged. Other columns: the key becomes the text, except under a `list` parent, where nothing changes. All of these return True and touch only the edited item; a missing item or a key edit on the root raises AttributeError. |
| JsonModel.QJsonModel.EditedJson | QJSONModel.py:253-268 | after a value edit `json` of the item is the inferred value; digit text gives its decimal value |
| JsonModel.SetValueKeeps | QJSONModel.py:253-268 | a value edit keeps the arena well formed and array keys dense |
| JsonModel.SetKeyKeeps | QJSONModel.py:269-271 | a key edit under a non-`list` parent keeps the arena well formed and array keys dense |

## Left out

- `JSONWizard.py` is not part of this model. It builds the window, menus, dialogs and files
  around the model.
- Qt notifications are not modelled:
  - `beginInsertRows`/`endInsertRows`, `beginRemoveRows`/`endRemoveRows`,
    `beginResetModel`/`endResetModel`;
  - `dataChanged`.

  They only inform the view.
- `headerData` and `flags` are not modelled. They are display constants for the view.
- `QModelIndex` internals are reduced to the triple `(row, column, item)`. `hasIndex` becomes
  the range check on row and column; `createIndex` becomes building that triple.
- Floats and other scalars are one opaque `JOther` value with their own type tag; only their
  identity matters to the model.
- Tuple documents are not modelled. `load` accepts a tuple, but the model's documents are
  dicts, lists and scalars.
- The `sort=True` path of `QJsonTreeItem.load` is not modelled, because `QJsonModel.load`
  never takes it.
- `str.isdigit` is modelled on ASCII digits only. Other Unicode digits are not modelled.
- `setData` is modelled on the text `str(value)`; values that are not strings are not
  modelled.
- Python's `-O` flag, which removes the `assert` in `load`, is not modelled.
- Garbage collection is not modelled: detached items stay in the arena, including the old
  tree after `load`. A `QModelIndex` made by `createIndex` keeps only a raw pointer to its
  item, not a reference, so in Python a detached item may be collected and an index to it
  left dangling. The model keeps every item, so `data` and `setData` through such a stale
  index reach the old, detached item.
- `itemType` (`str`, `list` or `dict` in the source) is a type tag.
- JsonTreeItem.Attach: has no contract of its own; it is the arena after one turn of `load`'s
  loop (the key and type set, then `appendChild`), which `LoadItem` performs as two updates in
  place, and `LoadStepShape` and `LoadStepChildren` state what it keeps and adds.
- JsonTreeItem.ChildCount: has no contract of its own; `Child` and `Index` state what the rows
  below it give.
- JsonTreeItem.NewItem: has no contract of its own; it is the record `__init__` builds, and
  the constructor and `InsertRows` state the items made with it.
- JsonValue.TypeOf: has no contract of its own; `LoadItem`, `LoadRoundTrip` and `Infer` state
  the type tags it gives.
- Serialisation.GenJson, Serialisation.GenItems and Serialisation.GenMembers: have no
  contracts of their own; `LoadRoundTrip`, `GenJsonLeaf`, `GenItemsMatch`, `GenMembersMatch`,
  `GenJsonFrame` and `AppendedJson` state what `genJson` returns.
- EditText.IsDigits and EditText.DigitsValue: have no contracts of their own; `Infer`,
  `DecimalRoundTrip` and `InferDecimal` state what they decide and compute.
- JsonModel.QJsonModel.ItemOf: has no contract beyond staying in the arena; `Index`,
  `ParentOfIndex` and `InsertRows` state what the item behind an index is.
- JsonModel.QJsonModel.RowCount and JsonModel.QJsonModel.ColumnCount: have no contracts of
  their own; `Index` states that an index is valid exactly for a row below `rowCount` and a
  column below `columnCount`, and `ParentOfIndex` that `parent` undoes it.
- JsonModel.QJsonModel.InsertTarget, JsonModel.QJsonModel.CurrentRow and JsonModel.PlaceholderValue:
  have no contracts of their own; `InsertRows` states the item it appends and when it fails.
- JsonModel.QJsonModel.RemoveRows: always takes a parent index. Called without one, the
  default `parent=...` (Ellipsis) makes `rowCount(parent)` raise AttributeError whenever
  `count > 0` and `row >= 0`; that call is not modelled.
- JsonModel.QJsonModel.SetData: stores digit text of any length as an int. CPython's limit on
  `int()` of a decimal string (4300 digits by default) raises ValueError there and leaves the
  item unchanged; that limit is not modelled.
- JsonModel.QJsonModel.InsertRows: `if currentIndex:` is modelled as `Option`, assuming every
  `QModelIndex` object is truthy, an invalid one included. An invalid current index
  therefore gives row -1 and makes `insertRows` return False.
- JsonModel.QJsonModel.Parent: has no contract of its own; `ParentOfIndex` states how it
  undoes `index`.
- JsonModel.QJsonModel.Data and JsonModel.QJsonModel.ToJson: have no contracts of their own.
  `DisplayedValue`, `ArrayKeyIsRow`, `InsertedJson` and `EditedJson` state what they return.
- Removal.ShiftKeys: leaves a name key unchanged. In Python, subtracting from a string key
  raises TypeError, but the second loop only reaches children of a `list`, whose keys are
  ordinals.
