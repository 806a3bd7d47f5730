/**
 * QJsonModel: the Qt item model over a tree of QJsonTreeItem. The model holds the arena of
 * items and the handle of its root item; a QModelIndex is a (row, column, item) triple.
 */
module JsonModel {
  import opened Wrappers
  import opened JsonValue
  import opened JsonTreeItem
  import opened Serialisation
  import opened EditText
  import opened Removal

  /** The values of `Qt.DisplayRole` and `Qt.EditRole`. */
  const DisplayRole: int := 0
  const EditRole: int := 2

  /**
   * A QModelIndex: row, column and the item it points at (`internalPointer()`), None for the
   * default-constructed index, which has row and column -1.
   */
  datatype ModelIndex = ModelIndex(row: int, column: int, item: Option<Handle>) {
    /** `isValid()`. */
    predicate IsValid() {
      row >= 0 && column >= 0 && item.Some?
    }
  }

  /** `QModelIndex()`. */
  const Invalid := ModelIndex(-1, -1, None)

  /** What `data` returns: None, an item's key or value, or the item itself. */
  datatype CellData = NoData | KeyData(key: Key) | ValueData(value: Json) | ItemData(item: Handle)

  /**
   * The key `insertRows` gives the new item: its position under a `list` parent, a marker
   * naming its kind under a `dict` parent, and the initial "" otherwise.
   */
  function PlaceholderKey(parentType: Tag, position: nat, itemType: Tag): (k: Key)
    ensures k.Ordinal? <==> parentType == ListType
  {
    if parentType == ListType then Ordinal(position)
    else if parentType == DictType then
      if itemType == ListType then Name("**UNNAMED ARRAY**")
      else if itemType == DictType then Name("**UNNAMED OBJECT**")
      else Name("**KEY**")
    else Name("")
  }

  /** The value `insertRows` gives the new item: a marker for a `str` item, "" otherwise. */
  function PlaceholderValue(itemType: Tag): Json {
    if itemType == StrType then JStr("**VALUE**") else JStr("")
  }

  class QJsonModel {
    /** Every item created so far; `_rootItem` is `nodes[root]`. */
    var nodes: seq<Item>
    var root: Handle

    /** The arena is well formed and the root item has no parent. */
    ghost predicate Valid()
      reads this
    {
      WellFormedArena(nodes) && root < |nodes| && nodes[root].parent.None?
    }

    /** Array items have keys 0, 1, ... everywhere in the arena. */
    ghost predicate DenseArrays()
      reads this
    {
      Dense(nodes)
    }

    /** The index points into the arena, if it points anywhere. */
    predicate InArena(index: ModelIndex)
      reads this
    {
      index.item.Some? ==> index.item.value < |nodes|
    }

    /**
     * The index is one `index` could have made: a valid index points at an item other than
     * the root, held by its parent at the index's row.
     */
    ghost predicate Canonical(index: ModelIndex)
      reads this
      requires InArena(index)
    {
      index.IsValid() ==>
        index.item.value != root && Attached(nodes, index.item.value) &&
        Row(nodes, index.item.value) == index.row
    }

    /** The item behind an index, the root item for an invalid index. */
    function ItemOf(index: ModelIndex): (h: Handle)
      reads this
      requires Valid() && InArena(index)
      ensures h < |nodes|
    {
      if index.IsValid() then index.item.value else root
    }

    /** `QJsonModel()`: an empty root item, type None. */
    constructor ()
      ensures Valid() && DenseArrays()
      ensures nodes == [NewItem(None)] && root == 0
    {
      nodes := [NewItem(None)];
      root := 0;
    }

    // -------------------------------------------------------------------------
    // load, clear, json

    /**
     * `load(document)`: a document that is not a dict or list fails the assertion and leaves
     * the model alone; otherwise a new tree is built from the document, the root item keyed
     * "root" and tagged with the document's type. The old items stay in the arena, detached,
     * so an index made before the call still points at an old item.
     */
    method Load(document: Json) returns (r: Result<bool>)
      requires Valid()
      modifies this
      ensures Valid()
      ensures !IsContainer(document) ==> r == Raised(AssertionError) && nodes == old(nodes) && root == old(root)
      ensures IsContainer(document) ==>
                r == Returned(true) && root == |old(nodes)| && nodes[..root] == old(nodes) &&
                DenseFrom(nodes, root) && (old(DenseArrays()) ==> DenseArrays()) &&
                nodes[root].key == Name("root") && nodes[root].typ == TypeOf(document) &&
                Represents(nodes, root, document)
      ensures IsContainer(document) && WellFormed(document) ==> GenJson(nodes, root) == document
    {
      if !IsContainer(document) {
        return Raised(AssertionError);
      }
      var loaded, h := LoadItem(nodes, document, None);
      forall q | 0 <= q < |loaded| ensures h !in loaded[q].children {
        if q < h {
          assert loaded[q] == nodes[q];
          assert forall i | 0 <= i < |nodes[q].children| :: nodes[q].children[i] < h;
        } else {
          assert forall i | 0 <= i < |loaded[q].children| :: q < loaded[q].children[i];
        }
      }
      Retag(loaded, h, Name("root"), document, h);
      var tagged := loaded[h := loaded[h].(typ := TypeOf(document))];
      assert tagged == loaded[h := loaded[h].(key := Name("root"), typ := TypeOf(document))];
      RepresentsFrame(loaded, tagged, h, document);
      assert tagged[..h] == nodes;
      if Dense(nodes) {
        DenseExtend(nodes, tagged, 0);
      }
      nodes, root := tagged, h;
      if WellFormed(document) {
        LoadRoundTrip(nodes, root, document);
      }
      return Returned(true);
    }

    /** `clear()`: load the empty dict. */
    method Clear() returns (r: Result<bool>)
      requires Valid()
      modifies this
      ensures Valid() && r == Returned(true) && nodes[..root] == old(nodes)
      ensures old(DenseArrays()) ==> DenseArrays()
      ensures nodes[root].typ == DictType && nodes[root].children == []
      ensures ToJson(None) == JObject([])
    {
      r := Load(JObject([]));
      assert WellFormed(JObject([]));
    }

    /** `json(root=None)`: `genJson` from the given item, or from the root item. */
    function ToJson(from: Option<Handle>): Json
      reads this
      requires Valid() && (from.Some? ==> from.value < |nodes|)
    {
      GenJson(nodes, if from.Some? then from.value else root)
    }

    // -------------------------------------------------------------------------
    // The item-model interface

    /**
     * `data(index, role)`: None for an invalid index; the key (column 0) or value (column 1)
     * for the display role; the item itself for the edit role; None otherwise.
     */
    function Data(index: ModelIndex, role: int): CellData
      reads this
      requires InArena(index)
    {
      if !index.IsValid() then NoData
      else
        var it := nodes[index.item.value];
        if role == DisplayRole then
          if index.column == 0 then KeyData(it.key)
          else if index.column == 1 then ValueData(it.value)
          else NoData
        else if role == EditRole then ItemData(index.item.value)
        else NoData
    }

    /** `rowCount(parent)`: 0 beyond the first column, otherwise the item's child count. */
    function RowCount(parent: ModelIndex): nat
      reads this
      requires Valid() && InArena(parent)
    {
      if parent.column > 0 then 0 else ChildCount(nodes, ItemOf(parent))
    }

    /** `columnCount(parent)`: the key column and the value column. */
    function ColumnCount(parent: ModelIndex): nat {
      2
    }

    /**
     * `index(row, column, parent)`: the index of child `row` of the parent's item (the root
     * item for an invalid parent), or the invalid index when `hasIndex` fails.
     */
    function Index(row: int, column: int, parent: ModelIndex): (r: ModelIndex)
      reads this
      requires Valid() && InArena(parent)
      ensures InArena(r)
      ensures r.IsValid() <==> 0 <= row < RowCount(parent) && 0 <= column < ColumnCount(parent)
      ensures !r.IsValid() ==> r == Invalid
      ensures r.IsValid() ==>
                r.row == row && r.column == column &&
                nodes[r.item.value].parent == Some(ItemOf(parent)) && Canonical(r)
    {
      if 0 <= row < RowCount(parent) && 0 <= column < ColumnCount(parent) then
        ModelIndex(row, column, Some(Child(nodes, ItemOf(parent), row)))
      else
        Invalid
    }

    /**
     * `parent(index)`: the invalid index for an invalid index or a child of the root item;
     * otherwise an index in column 0 at the parent item's row. For the root item itself the
     * parent is None and `None.row()` raises AttributeError; a parent no longer held by its
     * own parent makes `list.index` raise ValueError.
     */
    function Parent(index: ModelIndex): (r: Result<ModelIndex>)
      reads this
      requires Valid() && InArena(index)
    {
      if !index.IsValid() then Returned(Invalid)
      else
        match nodes[index.item.value].parent
        case None => Raised(AttributeError)
        case Some(p) =>
          if p == root then Returned(Invalid)
          else if !Attached(nodes, p) then Raised(ValueError)
          else Returned(ModelIndex(Row(nodes, p), 0, Some(p)))
    }

    /** `parent` undoes `index`: the parent of a child's index is the index it was made from. */
    lemma ParentOfIndex(row: int, column: int, parent: ModelIndex)
      requires Valid() && InArena(parent) && Canonical(parent)
      ensures var child := Index(row, column, parent);
              Parent(child) == Returned(if child.IsValid() && parent.IsValid() then parent else Invalid)
    {
    }

    /**
     * What the value column shows for an item without children is what `json` gives for
     * it, unless it is a `dict` or `list`, which shows "" but serialises as an empty container.
     */
    lemma DisplayedValue(index: ModelIndex)
      requires Valid() && InArena(index) && index.IsValid() && index.column == 1
      requires nodes[index.item.value].children == []
      ensures ToJson(index.item) == LeafJson(nodes[index.item.value].typ, nodes[index.item.value].value)
      ensures Data(index, DisplayRole) == ValueData(nodes[index.item.value].value)
    {
      var h := index.item.value;
      GenJsonLeaf(nodes, h);
    }

    /**
     * With dense array keys, the key column of an item held by a `list` shows the item's row:
     * what `data` displays for it is the ordinal `index.row`.
     */
    lemma ArrayKeyIsRow(index: ModelIndex)
      requires Valid() && DenseArrays() && InArena(index) && Canonical(index)
      requires index.IsValid() && index.column == 0
      requires nodes[index.item.value].parent.Some?
      requires nodes[nodes[index.item.value].parent.value].typ == ListType
      ensures Data(index, DisplayRole) == KeyData(Ordinal(index.row))
    {
      var h := index.item.value;
      var p := nodes[h].parent.value;
      assert p < h;
      assert DenseAt(nodes, p);
    }

    // -------------------------------------------------------------------------
    // insertRow, insertRows

    /** The row `insertRows` checks: the current index's row, 0 when there is none. */
    function CurrentRow(currentIndex: Option<ModelIndex>): int {
      if currentIndex.Some? then currentIndex.value.row else 0
    }

    /**
     * The item `insertRows` appends to: the root item when the parent index is invalid or
     * there is no current index; otherwise the current item when it is a `list` or `dict`,
     * and the parent's item when it is not.
     */
    function InsertTarget(currentIndex: Option<ModelIndex>, parent: ModelIndex): (t: Handle)
      reads this
      requires Valid() && InArena(parent) && (currentIndex.Some? ==> InArena(currentIndex.value))
      ensures t < |nodes|
    {
      if !parent.IsValid() || currentIndex.None? then root
      else
        var current := currentIndex.value;
        if current.IsValid() && (nodes[current.item.value].typ == ListType || nodes[current.item.value].typ == DictType)
        then current.item.value
        else parent.item.value
    }

    /**
     * `insertRows(currentIndex, count, itemType, parent)`: fails when `count` is not positive
     * or the current row is negative; otherwise appends ONE new item, whatever `count` is, to
     * the target item, with the placeholder key and value and the given type.
     */
    method InsertRows(currentIndex: Option<ModelIndex>, count: int, itemType: Tag, parent: ModelIndex)
      returns (ok: bool)
      requires Valid() && InArena(parent) && (currentIndex.Some? ==> InArena(currentIndex.value))
      modifies this
      ensures Valid() && root == old(root)
      ensures ok == (count > 0 && CurrentRow(currentIndex) >= 0)
      ensures !ok ==> nodes == old(nodes)
      ensures ok ==>
                var t := old(InsertTarget(currentIndex, parent));
                var key := PlaceholderKey(old(nodes[t].typ), old(|nodes[t].children|), itemType);
                var it := Item(key, PlaceholderValue(itemType), itemType, [], Some(t));
                nodes == AppendChild(old(nodes) + [it], t, |old(nodes)|)
      ensures old(DenseArrays()) ==> DenseArrays()
    {
      var row := 0;
      if currentIndex.Some? {
        row := currentIndex.value.row;
      }
      if count <= 0 || row < 0 {
        return false;
      }
      var t := InsertTarget(currentIndex, parent);
      var key := PlaceholderKey(nodes[t].typ, |nodes[t].children|, itemType);
      var it := Item(key, PlaceholderValue(itemType), itemType, [], Some(t));
      var c := |nodes|;
      AddLeaf(nodes, it);
      if Dense(nodes) {
        DenseExtend(nodes, nodes + [it], 0);
      }
      assert c !in nodes[t].children by {
        assert forall i | 0 <= i < |nodes[t].children| :: nodes[t].children[i] < c;
      }
      AppendFresh(nodes + [it], t, c, 0);
      nodes := AppendChild(nodes + [it], t, c);
      return true;
    }

    /** `insertRow(currentIndex, itemType, parent)`: `insertRows` with a count of 1. */
    method InsertRow(currentIndex: Option<ModelIndex>, itemType: Tag, parent: ModelIndex)
      returns (ok: bool)
      requires Valid() && InArena(parent) && (currentIndex.Some? ==> InArena(currentIndex.value))
      modifies this
      ensures Valid() && root == old(root)
      ensures ok == (CurrentRow(currentIndex) >= 0)
      ensures !ok ==> nodes == old(nodes)
      ensures ok ==>
                var t := old(InsertTarget(currentIndex, parent));
                var key := PlaceholderKey(old(nodes[t].typ), old(|nodes[t].children|), itemType);
                var it := Item(key, PlaceholderValue(itemType), itemType, [], Some(t));
                nodes == AppendChild(old(nodes) + [it], t, |old(nodes)|)
      ensures old(DenseArrays()) ==> DenseArrays()
    {
      ok := InsertRows(currentIndex, 1, itemType, parent);
    }

    /**
     * After a successful `insertRows`, the new item is the target's last child, and `json`
     * of the target shows its placeholder appended to a `list` or set in a `dict`.
     */
    lemma InsertedJson(before: seq<Item>, t: Handle, it: Item)
      requires Valid() && WellFormedArena(before) && t < |before| && it.children == []
      requires nodes == AppendChild(before + [it], t, |before|)
      ensures Child(nodes, t, |before[t].children|) == |before|
      ensures ToJson(Some(|before|)) == LeafJson(it.typ, it.value)
      ensures before[t].typ == ListType ==> ToJson(Some(t)) == JArray(GenJson(before, t).items + [LeafJson(it.typ, it.value)])
      ensures before[t].typ == DictType ==> ToJson(Some(t)) == JObject(SetItem(GenJson(before, t).members, it.key, LeafJson(it.typ, it.value)))
    {
      AppendedJson(before, t, it);
    }

    // -------------------------------------------------------------------------
    // removeRows

    /**
     * `removeRows(row, count, parent)`: fails unless `count` is positive, `row` is not negative
     * and `row + count` is at most the parent's row count. Otherwise the first loop removes, for
     * n from `row` to `row + count - 1`, whatever child is at position n by then, so with a
     * count above 1 it skips every other child and, once the list has shrunk below n, raises
     * IndexError with the turns so far done. When all turns succeed and the item is a `list`,
     * the second loop lowers by `count` the keys of the children from `row + count - 1` on.
     */
    method RemoveRows(row: int, count: int, parent: ModelIndex) returns (r: Result<bool>)
      requires Valid() && InArena(parent)
      modifies this
      ensures Valid() && root == old(root)
      ensures !(count > 0 && row >= 0 && row + count <= old(RowCount(parent))) ==>
                r == Returned(false) && nodes == old(nodes)
      ensures count > 0 && row >= 0 && row + count <= old(RowCount(parent)) ==>
                var p := old(ItemOf(parent));
                var size := |old(nodes[p].children)|;
                if row + 2 * (count - 1) < size then
                  r == Returned(true) && nodes == AfterRemoval(old(nodes), p, row, count)
                else
                  r == Raised(IndexError) && nodes == Removed(old(nodes), p, row, TurnsDone(size, row))
      ensures count == 1 && old(DenseArrays()) ==> DenseArrays()
      ensures count >= 2 && r == Returned(true) && old(DenseArrays()) && old(nodes[ItemOf(parent)].typ) == ListType ==>
                !DenseArrays()
    {
      if count <= 0 || row < 0 || row + count > RowCount(parent) {
        return Returned(false);
      }
      var p := ItemOf(parent);
      var arena, completed := RemoveFrom(nodes, p, row, count);
      if completed && count >= 2 && Dense(nodes) && nodes[p].typ == ListType {
        NotDenseAboveOne(nodes, p, row, count);
      }
      nodes := arena;
      if !completed {
        return Raised(IndexError);
      }
      return Returned(true);
    }

    // -------------------------------------------------------------------------
    // setData

    /**
     * `setData(index, value, role)` with the value's text: empty text or a role other than
     * the edit role does nothing and returns False. In the value column a `list` or `dict`
     * item is left alone and any other item takes the inferred value and type; in any other
     * column the key becomes the text unless the item's parent is a `list`. Every edit-role
     * call with non-empty text returns True, whether or not it changed anything. An index
     * without an item, and a key edit on an item without a parent, raise AttributeError.
     */
    method SetData(index: ModelIndex, text: string, role: int) returns (r: Result<bool>)
      requires Valid() && InArena(index)
      modifies this
      ensures Valid() && root == old(root)
      ensures old(DenseArrays()) ==> DenseArrays()
      ensures text == "" || role != EditRole ==> r == Returned(false) && nodes == old(nodes)
      ensures text != "" && role == EditRole && index.item.None? ==> r == Raised(AttributeError) && nodes == old(nodes)
      ensures text != "" && role == EditRole && index.item.Some? ==>
                var h := index.item.value;
                var it := old(nodes[h]);
                if index.column == 1 then
                  r == Returned(true) &&
                  nodes == if it.typ == ListType || it.typ == DictType then old(nodes)
                           else old(nodes)[h := it.(value := Infer(text).value, typ := Infer(text).tag)]
                else if it.parent.None? then
                  r == Raised(AttributeError) && nodes == old(nodes)
                else
                  r == Returned(true) &&
                  nodes == if old(nodes[it.parent.value].typ) == ListType then old(nodes)
                           else old(nodes)[h := it.(key := Name(text))]
    {
      if text == "" || role != EditRole {
        return Returned(false);
      }
      if index.item.None? {
        return Raised(AttributeError);
      }
      var h := index.item.value;
      var it := nodes[h];
      if index.column == 1 {
        if it.typ != ListType && it.typ != DictType {
          var inferred := Infer(text);
          SetValueKeeps(nodes, h, inferred.value, inferred.tag);
          nodes := nodes[h := it.(value := inferred.value, typ := inferred.tag)];
        }
      } else {
        if it.parent.None? {
          return Raised(AttributeError);
        }
        if nodes[it.parent.value].typ != ListType {
          SetKeyKeeps(nodes, h, Name(text));
          nodes := nodes[h := it.(key := Name(text))];
        }
      }
      return Returned(true);
    }

    /**
     * After a value edit, `json` of the item gives the inferred value: digit text its
     * decimal value, "null" None, the four boolean spellings a boolean, other text itself.
     */
    lemma EditedJson(h: Handle, text: string)
      requires Valid() && h < |nodes|
      requires nodes[h].value == Infer(text).value && nodes[h].typ == Infer(text).tag
      ensures ToJson(Some(h)) == Infer(text).value
      ensures IsDigits(text) ==> ToJson(Some(h)) == JInt(DigitsValue(text))
    {
    }
  }

  /** Changing the value and type of an item that stays neither `list` nor `dict` keeps the invariants. */
  lemma SetValueKeeps(nodes: seq<Item>, h: Handle, value: Json, typ: Tag)
    requires WellFormedArena(nodes) && h < |nodes|
    requires nodes[h].typ != ListType && typ != ListType
    ensures WellFormedArena(nodes[h := nodes[h].(value := value, typ := typ)])
    ensures Dense(nodes) ==> Dense(nodes[h := nodes[h].(value := value, typ := typ)])
  {
    var r := nodes[h := nodes[h].(value := value, typ := typ)];
    forall q | 0 <= q < |r| ensures OrdinalKeysAt(r, q) && (DenseAt(nodes, q) ==> DenseAt(r, q)) {
      assert OrdinalKeysAt(nodes, q);
      if q != h {
        forall i | 0 <= i < |r[q].children| ensures r[r[q].children[i]].key == nodes[nodes[q].children[i]].key {
        }
      }
    }
  }

  /** Renaming an item whose parent is not a `list` keeps the invariants. */
  lemma SetKeyKeeps(nodes: seq<Item>, h: Handle, key: Key)
    requires WellFormedArena(nodes) && h < |nodes|
    requires nodes[h].parent.Some? && nodes[nodes[h].parent.value].typ != ListType
    ensures WellFormedArena(nodes[h := nodes[h].(key := key)])
    ensures Dense(nodes) ==> Dense(nodes[h := nodes[h].(key := key)])
  {
    var r := nodes[h := nodes[h].(key := key)];
    forall q | 0 <= q < |r| ensures OrdinalKeysAt(r, q) && (DenseAt(nodes, q) ==> DenseAt(r, q)) {
      assert OrdinalKeysAt(nodes, q);
      if r[q].typ == ListType {
        forall i | 0 <= i < |r[q].children| ensures r[r[q].children[i]].key == nodes[nodes[q].children[i]].key {
          assert nodes[nodes[q].children[i]].parent == Some(q);
        }
      }
    }
  }
}
