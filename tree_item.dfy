/**
 * QJsonTreeItem: one node of the editable tree. Items live in an arena (a sequence of
 * records) and refer to each other by handle, i.e. by position in the arena; the parent
 * reference is a handle as well. An item removed from its parent stays in the arena,
 * detached, as the Python object would until it is collected.
 */
module JsonTreeItem {
  import opened Wrappers
  import opened JsonValue

  type Handle = nat

  /** The fields of a QJsonTreeItem: `_key`, `_value`, `_type`, `_children`, `_parent`. */
  datatype Item = Item(key: Key, value: Json, typ: Tag, children: seq<Handle>, parent: Option<Handle>)

  /** `QJsonTreeItem(parent)`: key "", value "", type None and no children. */
  function NewItem(parent: Option<Handle>): Item {
    Item(Name(""), JStr(""), NoType, [], parent)
  }

  // ---------------------------------------------------------------------------
  // Shape of the arena

  /** Every child is stored after its parent, inside the arena. */
  ghost predicate Ordered(nodes: seq<Item>) {
    forall h, i | 0 <= h < |nodes| && 0 <= i < |nodes[h].children| ::
      h < nodes[h].children[i] < |nodes|
  }

  /** A child's parent reference points back to the item whose child list holds it. */
  ghost predicate Linked(nodes: seq<Item>) {
    forall h, i | 0 <= h < |nodes| && 0 <= i < |nodes[h].children| && nodes[h].children[i] < |nodes| ::
      nodes[nodes[h].children[i]].parent == Some(h)
  }

  ghost predicate DistinctHandles(cs: seq<Handle>) {
    forall i, j | 0 <= i < j < |cs| :: cs[i] != cs[j]
  }

  /** No child list holds the same item twice. */
  ghost predicate Distinct(nodes: seq<Item>) {
    forall h | 0 <= h < |nodes| :: DistinctHandles(nodes[h].children)
  }

  /** The children of an item tagged `list` all have ordinal keys. */
  ghost predicate OrdinalKeysAt(nodes: seq<Item>, h: Handle)
    requires h < |nodes|
  {
    nodes[h].typ == ListType ==>
      forall i | 0 <= i < |nodes[h].children| && nodes[h].children[i] < |nodes| ::
        nodes[nodes[h].children[i]].key.Ordinal?
  }

  ghost predicate OrdinalKeys(nodes: seq<Item>) {
    forall h | 0 <= h < |nodes| :: OrdinalKeysAt(nodes, h)
  }

  /** A parent reference points at an item stored earlier. */
  ghost predicate Parented(nodes: seq<Item>) {
    forall h | 0 <= h < |nodes| && nodes[h].parent.Some? :: nodes[h].parent.value < h
  }

  /** The invariant every operation of the model keeps. */
  ghost predicate WellFormedArena(nodes: seq<Item>) {
    Ordered(nodes) && Linked(nodes) && Distinct(nodes) && OrdinalKeys(nodes) && Parented(nodes)
  }

  /** The children of an item tagged `list` are keyed 0, 1, ..., in order. */
  ghost predicate DenseAt(nodes: seq<Item>, h: Handle)
    requires h < |nodes|
  {
    nodes[h].typ == ListType ==>
      forall i | 0 <= i < |nodes[h].children| && nodes[h].children[i] < |nodes| ::
        nodes[nodes[h].children[i]].key == Ordinal(i)
  }

  /** Array keys are dense for every item from `lo` on. */
  ghost predicate DenseFrom(nodes: seq<Item>, lo: nat) {
    forall h | lo <= h < |nodes| :: DenseAt(nodes, h)
  }

  ghost predicate Dense(nodes: seq<Item>) {
    DenseFrom(nodes, 0)
  }

  /** The item is the root (no parent) or is held in its parent's child list. */
  predicate Attached(nodes: seq<Item>, h: Handle)
    requires h < |nodes|
  {
    match nodes[h].parent
    case None => true
    case Some(p) => p < |nodes| && h in nodes[p].children
  }

  // ---------------------------------------------------------------------------
  // Child lists

  /** `list.index(x)`: the position of the first occurrence of `x`. */
  function IndexOf(cs: seq<Handle>, x: Handle): (i: nat)
    requires x in cs
    ensures i < |cs| && cs[i] == x && x !in cs[..i]
  {
    if cs[0] == x then 0
    else
      var i := 1 + IndexOf(cs[1..], x);
      assert cs[..i] == [cs[0]] + cs[1..][..i - 1];
      i
  }

  /** An element that does not occur earlier is found at its own position. */
  lemma IndexOfFirst(cs: seq<Handle>, i: nat)
    requires i < |cs| && cs[i] !in cs[..i]
    ensures IndexOf(cs, cs[i]) == i
  {
  }

  /** In a list without repeats the position of an element is its index. */
  lemma IndexOfDistinct(cs: seq<Handle>, i: nat)
    requires DistinctHandles(cs) && i < |cs|
    ensures IndexOf(cs, cs[i]) == i
  {
  }

  /**
   * `removeChild(item)`, i.e. `list.remove`: the first occurrence of `x` is taken out and the
   * other children keep their order (`IndexOf` finds that first occurrence).
   */
  function RemoveChild(cs: seq<Handle>, x: Handle): seq<Handle>
    requires x in cs
  {
    var i := IndexOf(cs, x);
    cs[..i] + cs[i + 1..]
  }

  /** `remove` takes exactly one occurrence of `x` out of the list and keeps every other element. */
  lemma RemoveChildCounts(cs: seq<Handle>, x: Handle)
    requires x in cs
    ensures |RemoveChild(cs, x)| == |cs| - 1
    ensures multiset(RemoveChild(cs, x)) == multiset(cs) - multiset{x}
  {
    var i := IndexOf(cs, x);
    assert cs == cs[..i] + [cs[i]] + cs[i + 1..];
  }

  /** `appendChild(item)`: `c` becomes the last child of `h`; no other item changes. */
  function AppendChild(nodes: seq<Item>, h: Handle, c: Handle): (r: seq<Item>)
    requires h < |nodes|
    ensures |r| == |nodes| && r[h].children == nodes[h].children + [c]
    ensures r[h] == nodes[h].(children := r[h].children)
    ensures forall k | 0 <= k < |nodes| && k != h :: r[k] == nodes[k]
  {
    nodes[h := nodes[h].(children := nodes[h].children + [c])]
  }

  /**
   * Appending an item made for `h` (stored after it, parent reference already `h`, not yet
   * in its child list) keeps the arena well formed, provided its key is an ordinal when `h` is a
   * `list`; it keeps array keys dense when that ordinal is the old child count.
   */
  lemma AppendFresh(nodes: seq<Item>, h: Handle, c: Handle, lo: nat)
    requires WellFormedArena(nodes) && lo <= h < c < |nodes|
    requires nodes[c].parent == Some(h) && c !in nodes[h].children
    requires nodes[h].typ == ListType ==> nodes[c].key.Ordinal?
    ensures WellFormedArena(AppendChild(nodes, h, c))
    ensures (DenseFrom(nodes, lo) && (nodes[h].typ == ListType ==> nodes[c].key == Ordinal(|nodes[h].children|)))
              ==> DenseFrom(AppendChild(nodes, h, c), lo)
  {
    var r := AppendChild(nodes, h, c);
    var n := |nodes[h].children|;
    assert forall i | 0 <= i < n :: r[h].children[i] == nodes[h].children[i];
    assert r[h].children[n] == c;
    forall k | 0 <= k < |r| ensures DistinctHandles(r[k].children) && OrdinalKeysAt(r, k) {
      if k == h {
        forall i, j | 0 <= i < j < |r[k].children| ensures r[k].children[i] != r[k].children[j] {
          if j == n {
            assert r[k].children[i] == nodes[h].children[i];
          }
        }
        assert OrdinalKeysAt(nodes, k);
      } else {
        assert OrdinalKeysAt(nodes, k);
        forall i | 0 <= i < |r[k].children| ensures r[r[k].children[i]].key == nodes[nodes[k].children[i]].key {
        }
      }
    }
    if DenseFrom(nodes, lo) && (nodes[h].typ == ListType ==> nodes[c].key == Ordinal(n)) {
      forall k | lo <= k < |r| ensures DenseAt(r, k) {
        assert DenseAt(nodes, k);
        if k != h {
          forall i | 0 <= i < |r[k].children| ensures r[r[k].children[i]].key == nodes[nodes[k].children[i]].key {
          }
        }
      }
    }
  }

  /** `child(row)`: the item at `row` in `h`'s child list; its `row()` is that position. */
  function Child(nodes: seq<Item>, h: Handle, row: nat): (c: Handle)
    requires WellFormedArena(nodes) && h < |nodes| && row < |nodes[h].children|
    ensures c < |nodes| && nodes[c].parent == Some(h) && Attached(nodes, c)
    ensures Row(nodes, c) == row
  {
    var c := nodes[h].children[row];
    IndexOfDistinct(nodes[h].children, row);
    c
  }

  /** `childCount()`. */
  function ChildCount(nodes: seq<Item>, h: Handle): nat
    requires h < |nodes|
  {
    |nodes[h].children|
  }

  /**
   * `row()`: the position of the item in its parent's child list, 0 for an item without a
   * parent.
   */
  function Row(nodes: seq<Item>, h: Handle): (r: nat)
    requires h < |nodes| && Attached(nodes, h)
    ensures nodes[h].parent.None? ==> r == 0
    ensures nodes[h].parent.Some? ==>
              var cs := nodes[nodes[h].parent.value].children;
              r < |cs| && cs[r] == h && h !in cs[..r]
  {
    match nodes[h].parent
    case None => 0
    case Some(p) => IndexOf(nodes[p].children, h)
  }

  // ---------------------------------------------------------------------------
  // load

  /** A new item without children can be stored at the end of the arena. */
  lemma AddLeaf(nodes: seq<Item>, it: Item)
    requires WellFormedArena(nodes) && it.children == []
    requires it.parent.Some? ==> it.parent.value < |nodes|
    ensures WellFormedArena(nodes + [it]) && DenseFrom(nodes + [it], |nodes|)
  {
    var r := nodes + [it];
    forall k | 0 <= k < |r| ensures OrdinalKeysAt(r, k) {
      if k < |nodes| {
        assert OrdinalKeysAt(nodes, k);
        forall i | 0 <= i < |r[k].children| ensures r[r[k].children[i]] == nodes[nodes[k].children[i]] {
        }
      }
    }
  }

  /**
   * The subtree at `h` holds `v` the way `load` builds it: a scalar is stored as the item's
   * value, with no children; a container keeps the value "" and gets one child per element,
   * in iteration order, keyed by its array index or dict key, tagged with the element's type
   * and holding the element in turn.
   */
  ghost predicate Represents(nodes: seq<Item>, h: Handle, v: Json)
    decreases v, 0
  {
    h < |nodes| &&
    if IsContainer(v) then
      nodes[h].value == JStr("") && |nodes[h].children| == Size(v) &&
      forall i | 0 <= i < Size(v) :: LoadedChild(nodes, nodes[h].children[i], KeyAt(v, i), ElementAt(v, i))
    else
      nodes[h].value == v && nodes[h].children == []
  }

  /** Child `c` carries key `k`, the type of `e`, and holds `e`. */
  ghost predicate LoadedChild(nodes: seq<Item>, c: Handle, k: Key, e: Json)
    decreases e, 1
  {
    c < |nodes| && nodes[c].key == k && nodes[c].typ == TypeOf(e) && Represents(nodes, c, e)
  }

  /** Items added after the end of an arena leave the older items' array keys as they were. */
  lemma DenseExtend(a: seq<Item>, b: seq<Item>, lo: nat)
    requires Ordered(a) && |a| <= |b| && b[..|a|] == a
    requires DenseFrom(a, lo) && DenseFrom(b, |a|)
    ensures DenseFrom(b, lo)
  {
    forall k | lo <= k < |a| ensures DenseAt(b, k) {
      assert b[k] == a[k];
      assert DenseAt(a, k);
      forall i | 0 <= i < |b[k].children| ensures b[b[k].children[i]] == a[a[k].children[i]] {
        assert a[k].children[i] < |a|;
      }
    }
  }

  /**
   * Setting the key and type of an item that no child list holds yet (as `load` does before
   * `appendChild`) keeps the arena well formed and array keys dense, when the item holds a
   * value of that type.
   */
  lemma Retag(nodes: seq<Item>, c: Handle, k: Key, e: Json, lo: nat)
    requires WellFormedArena(nodes) && lo <= c < |nodes|
    requires forall q | 0 <= q < |nodes| :: c !in nodes[q].children
    requires Represents(nodes, c, e)
    ensures WellFormedArena(nodes[c := nodes[c].(key := k, typ := TypeOf(e))])
    ensures DenseFrom(nodes, lo) ==> DenseFrom(nodes[c := nodes[c].(key := k, typ := TypeOf(e))], lo)
  {
    var r := nodes[c := nodes[c].(key := k, typ := TypeOf(e))];
    forall q | 0 <= q < |r| ensures OrdinalKeysAt(r, q) && (DenseAt(nodes, q) ==> DenseAt(r, q)) {
      if q == c {
        if e.JArray? {
          forall i | 0 <= i < |r[q].children| ensures r[r[q].children[i]].key == Ordinal(i) {
            var d := nodes[c].children[i];
            assert LoadedChild(nodes, d, KeyAt(e, i), ElementAt(e, i));
            assert d != c;
          }
        }
      } else {
        assert OrdinalKeysAt(nodes, q);
        forall i | 0 <= i < |r[q].children| ensures r[r[q].children[i]] == nodes[nodes[q].children[i]] {
          assert nodes[q].children[i] != c;
        }
      }
    }
  }

  /**
   * What the subtree at `x` holds depends only on `x`'s value and children and on the items
   * stored after `x`.
   */
  lemma {:induction false} RepresentsFrame(a: seq<Item>, b: seq<Item>, x: Handle, v: Json)
    requires Ordered(a) && Represents(a, x, v) && |a| <= |b|
    requires b[x].children == a[x].children && b[x].value == a[x].value
    requires forall k | x < k < |a| :: b[k] == a[k]
    ensures Represents(b, x, v)
    decreases v
  {
    if IsContainer(v) {
      forall i | 0 <= i < Size(v) ensures LoadedChild(b, b[x].children[i], KeyAt(v, i), ElementAt(v, i)) {
        var c := a[x].children[i];
        assert x < c < |a|;
        RepresentsFrame(a, b, c, ElementAt(v, i));
      }
    }
  }

  /** The state of `load` after the first `i` elements of a container have been appended. */
  ghost predicate Loading(nodes: seq<Item>, loaded: seq<Item>, h: Handle, parent: Option<Handle>, value: Json, i: nat) {
    && LoadingShape(nodes, loaded, h, parent, value, i)
    && LoadedChildren(loaded, h, value, i)
  }

  ghost predicate LoadingShape(nodes: seq<Item>, loaded: seq<Item>, h: Handle, parent: Option<Handle>, value: Json, i: nat) {
    && IsContainer(value) && i <= Size(value)
    && h == |nodes| < |loaded| && loaded[..h] == nodes
    && WellFormedArena(loaded) && DenseFrom(loaded, h)
    && loaded[h] == Item(Name("root"), JStr(""), NoType, loaded[h].children, parent)
    && |loaded[h].children| == i
  }

  /** The first `i` children of `h` hold the first `i` elements of `value`. */
  ghost predicate LoadedChildren(loaded: seq<Item>, h: Handle, value: Json, i: nat) {
    && h < |loaded| && i <= |loaded[h].children| && i <= Size(value)
    && forall j | 0 <= j < i :: LoadedChild(loaded, loaded[h].children[j], KeyAt(value, j), ElementAt(value, j))
  }

  /** The item load made for element `i` of `value`, with its key and type set and appended. */
  function Attach(mid: seq<Item>, h: Handle, value: Json, i: nat, c: Handle): seq<Item>
    requires h < |mid| && c < |mid| && i < Size(value)
  {
    AppendChild(mid[c := mid[c].(key := KeyAt(value, i), typ := TypeOf(ElementAt(value, i)))], h, c)
  }

  /** One turn of `load`'s loop keeps the arena well formed and the new items' array keys dense. */
  lemma LoadStepShape(nodes: seq<Item>, before: seq<Item>, mid: seq<Item>, h: Handle, parent: Option<Handle>,
                      value: Json, i: nat, c: Handle)
    requires LoadingShape(nodes, before, h, parent, value, i) && i < Size(value)
    requires c == |before| < |mid| && mid[..|before|] == before
    requires WellFormedArena(mid) && DenseFrom(mid, c)
    requires mid[c].parent == Some(h)
    requires Represents(mid, c, ElementAt(value, i))
    ensures LoadingShape(nodes, Attach(mid, h, value, i, c), h, parent, value, i + 1)
  {
    var elem := ElementAt(value, i);
    DenseExtend(before, mid, h);
    forall q | 0 <= q < |mid| ensures c !in mid[q].children {
      if q < c {
        assert mid[q] == before[q];
      }
    }
    Retag(mid, c, KeyAt(value, i), elem, h);
    var tagged := mid[c := mid[c].(key := KeyAt(value, i), typ := TypeOf(elem))];
    assert tagged[h] == before[h];
    AppendFresh(tagged, h, c, h);
    var after := AppendChild(tagged, h, c);
    assert after[..h] == nodes by {
      assert forall q | 0 <= q < h :: after[q] == before[q];
    }
  }

  /** One turn of `load`'s loop adds a child holding element `i` and keeps the earlier ones. */
  lemma LoadStepChildren(before: seq<Item>, mid: seq<Item>, h: Handle, value: Json, i: nat, c: Handle)
    requires Ordered(before) && Ordered(mid) && h < c && i < Size(value)
    requires LoadedChildren(before, h, value, i) && |before[h].children| == i
    requires c == |before| < |mid| && mid[..|before|] == before
    requires Represents(mid, c, ElementAt(value, i))
    ensures LoadedChildren(Attach(mid, h, value, i, c), h, value, i + 1)
  {
    var elem := ElementAt(value, i);
    var after := Attach(mid, h, value, i, c);
    assert forall q | 0 <= q < c && q != h :: after[q] == before[q];
    assert after[h].children == before[h].children + [c] by {
      assert mid[h] == before[h];
    }
    forall j | 0 <= j < i + 1
      ensures LoadedChild(after, after[h].children[j], KeyAt(value, j), ElementAt(value, j))
    {
      if j < i {
        var x := before[h].children[j];
        assert after[h].children[j] == x;
        assert LoadedChild(before, x, KeyAt(value, j), ElementAt(value, j));
        RepresentsFrame(before, after, x, ElementAt(value, j));
      } else {
        RepresentsFrame(mid, after, c, elem);
      }
    }
  }

  /**
   * `QJsonTreeItem.load(value, parent)`: appends to the arena a new item with key "root"
   * and parent reference `parent`, plus its subtree, and returns its handle. The new
   * subtree holds `value`; the items already in the arena are untouched (the caller's
   * `appendChild` links the new item in). Its own type is left None for a container, for the
   * caller to set.
   */
  method LoadItem(nodes: seq<Item>, value: Json, parent: Option<Handle>) returns (loaded: seq<Item>, h: Handle)
    requires WellFormedArena(nodes)
    requires parent.Some? ==> parent.value < |nodes|
    ensures h == |nodes| < |loaded| && loaded[..|nodes|] == nodes
    ensures WellFormedArena(loaded) && DenseFrom(loaded, h)
    ensures loaded[h].key == Name("root") && loaded[h].parent == parent
    ensures loaded[h].typ == if IsContainer(value) then NoType else TypeOf(value)
    ensures Represents(loaded, h, value)
    decreases value
  {
    h := |nodes|;
    loaded := nodes + [NewItem(parent).(key := Name("root"))];
    AddLeaf(nodes, loaded[h]);
    if IsContainer(value) {
      var i := 0;
      while i < Size(value)
        invariant Loading(nodes, loaded, h, parent, value, i)
      {
        var elem := ElementAt(value, i);
        var before := loaded;
        var c;
        loaded, c := LoadItem(loaded, elem, Some(h));
        LoadStepShape(nodes, before, loaded, h, parent, value, i, c);
        LoadStepChildren(before, loaded, h, value, i, c);
        loaded := loaded[c := loaded[c].(key := KeyAt(value, i), typ := TypeOf(elem))];
        loaded := AppendChild(loaded, h, c);
        i := i + 1;
      }
    } else {
      var leaf := loaded[h].(value := value, typ := TypeOf(value));
      AddLeaf(nodes, leaf);
      loaded := loaded[h := leaf];
      assert loaded == nodes + [leaf];
    }
  }
}
