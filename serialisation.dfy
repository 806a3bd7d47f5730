/**
 * `QJsonModel.genJson`: turning the item tree back into nested dict/list values, and the
 * round trip with `load`.
 */
module Serialisation {
  import opened JsonValue
  import opened JsonTreeItem

  /**
   * `genJson(item)`: an item tagged `dict` becomes a dict filled child by child with
   * `document[child.key] = genJson(child)`; one tagged `list` becomes the list of its
   * children's values; any other item gives its stored value, whatever children it has.
   */
  function GenJson(nodes: seq<Item>, h: Handle): Json
    requires Ordered(nodes) && h < |nodes|
    decreases |nodes| - h, 1
  {
    var it := nodes[h];
    if it.typ == DictType then JObject(GenMembers(nodes, h, |it.children|))
    else if it.typ == ListType then JArray(GenItems(nodes, h, |it.children|))
    else it.value
  }

  /** The list `genJson` has built after its first `n` turns. */
  function GenItems(nodes: seq<Item>, h: Handle, n: nat): seq<Json>
    requires Ordered(nodes) && h < |nodes| && n <= |nodes[h].children|
    decreases |nodes| - h, 0, n
  {
    if n == 0 then []
    else GenItems(nodes, h, n - 1) + [GenJson(nodes, nodes[h].children[n - 1])]
  }

  /** The dict `genJson` has built after its first `n` turns. */
  function GenMembers(nodes: seq<Item>, h: Handle, n: nat): seq<Member>
    requires Ordered(nodes) && h < |nodes| && n <= |nodes[h].children|
    decreases |nodes| - h, 0, n
  {
    if n == 0 then []
    else
      var c := nodes[h].children[n - 1];
      SetItem(GenMembers(nodes, h, n - 1), nodes[c].key, GenJson(nodes, c))
  }

  /** When every child serialises to the matching element, the list is the elements in order. */
  lemma {:induction false} GenItemsMatch(nodes: seq<Item>, h: Handle, items: seq<Json>, n: nat)
    requires Ordered(nodes) && h < |nodes| && |nodes[h].children| == |items| && n <= |items|
    requires forall i | 0 <= i < |items| :: GenJson(nodes, nodes[h].children[i]) == items[i]
    ensures GenItems(nodes, h, n) == items[..n]
  {
    if n > 0 {
      GenItemsMatch(nodes, h, items, n - 1);
      assert items[..n] == items[..n - 1] + [items[n - 1]];
    }
  }

  /**
   * When the children carry the dict's keys, in order and without repeats, and serialise to
   * its values, the dict is rebuilt entry by entry.
   */
  lemma {:induction false} GenMembersMatch(nodes: seq<Item>, h: Handle, ms: seq<Member>, n: nat)
    requires Ordered(nodes) && h < |nodes| && |nodes[h].children| == |ms| && n <= |ms|
    requires UniqueNames(ms)
    requires forall i | 0 <= i < |ms| ::
               var c := nodes[h].children[i];
               nodes[c].key == ms[i].name && GenJson(nodes, c) == ms[i].value
    ensures GenMembers(nodes, h, n) == ms[..n]
  {
    if n > 0 {
      GenMembersMatch(nodes, h, ms, n - 1);
      var c := nodes[h].children[n - 1];
      assert nodes[c].key == ms[n - 1].name;
      SetItemAppends(ms[..n - 1], ms[n - 1].name, ms[n - 1].value);
      assert ms[..n] == ms[..n - 1] + [Member(ms[n - 1].name, ms[n - 1].value)];
    }
  }

  /**
   * Round trip: a subtree built by `load` from a value, whose own type tag is the value's
   * type, serialises back to that value.
   */
  lemma {:induction false} LoadRoundTrip(nodes: seq<Item>, h: Handle, v: Json)
    requires Ordered(nodes) && Represents(nodes, h, v) && nodes[h].typ == TypeOf(v) && WellFormed(v)
    ensures GenJson(nodes, h) == v
    decreases v
  {
    if IsContainer(v) {
      forall i | 0 <= i < Size(v) ensures GenJson(nodes, nodes[h].children[i]) == ElementAt(v, i) {
        var c := nodes[h].children[i];
        assert LoadedChild(nodes, c, KeyAt(v, i), ElementAt(v, i));
        LoadRoundTrip(nodes, c, ElementAt(v, i));
      }
      match v
      case JArray(items) =>
        GenItemsMatch(nodes, h, items, |items|);
        assert items[..|items|] == items;
      case JObject(ms) =>
        forall i | 0 <= i < |ms|
          ensures nodes[nodes[h].children[i]].key == ms[i].name
          ensures GenJson(nodes, nodes[h].children[i]) == ms[i].value
        {
          assert LoadedChild(nodes, nodes[h].children[i], KeyAt(v, i), ElementAt(v, i));
        }
        GenMembersMatch(nodes, h, ms, |ms|);
        assert ms[..|ms|] == ms;
    }
  }

  /** What `genJson` gives for an item without children: an empty container, or its value. */
  function LeafJson(typ: Tag, value: Json): Json {
    if typ == DictType then JObject([]) else if typ == ListType then JArray([]) else value
  }

  /** `genJson(item)` reads only the item and the items stored after it. */
  lemma {:induction false} GenJsonFrame(a: seq<Item>, b: seq<Item>, h: Handle)
    requires Ordered(a) && Ordered(b) && h < |a| <= |b|
    requires forall k | h <= k < |a| :: b[k] == a[k]
    ensures GenJson(b, h) == GenJson(a, h)
    decreases |a| - h, 1
  {
    var n := |a[h].children|;
    GenItemsFrame(a, b, h, n);
    GenMembersFrame(a, b, h, n);
  }

  /** The first `n` turns of `genJson`'s loops read only the first `n` children's subtrees. */
  lemma {:induction false} GenItemsFrame(a: seq<Item>, b: seq<Item>, h: Handle, n: nat)
    requires Ordered(a) && Ordered(b) && h < |a| <= |b|
    requires n <= |a[h].children| && n <= |b[h].children|
    requires forall i | 0 <= i < n :: b[h].children[i] == a[h].children[i]
    requires forall k | h < k < |a| :: b[k] == a[k]
    ensures GenItems(b, h, n) == GenItems(a, h, n)
    decreases |a| - h, 0, n
  {
    if n > 0 {
      GenItemsFrame(a, b, h, n - 1);
      GenJsonFrame(a, b, a[h].children[n - 1]);
    }
  }

  lemma {:induction false} GenMembersFrame(a: seq<Item>, b: seq<Item>, h: Handle, n: nat)
    requires Ordered(a) && Ordered(b) && h < |a| <= |b|
    requires n <= |a[h].children| && n <= |b[h].children|
    requires forall i | 0 <= i < n :: b[h].children[i] == a[h].children[i]
    requires forall k | h < k < |a| :: b[k] == a[k]
    ensures GenMembers(b, h, n) == GenMembers(a, h, n)
    decreases |a| - h, 0, n
  {
    if n > 0 {
      GenMembersFrame(a, b, h, n - 1);
      GenJsonFrame(a, b, a[h].children[n - 1]);
    }
  }

  /**
   * Appending a new item without children to `h`'s child list adds its value at the end of
   * a `list`, sets its key in a `dict`, and changes nothing for any other item type.
   */
  lemma AppendedJson(a: seq<Item>, h: Handle, it: Item)
    requires Ordered(a) && h < |a| && it.children == []
    ensures Ordered(AppendChild(a + [it], h, |a|))
    ensures var b := AppendChild(a + [it], h, |a|);
            GenJson(b, |a|) == LeafJson(it.typ, it.value)
    ensures var b := AppendChild(a + [it], h, |a|);
            var leaf := LeafJson(it.typ, it.value);
            if a[h].typ == ListType then GenJson(b, h) == JArray(GenJson(a, h).items + [leaf])
            else if a[h].typ == DictType then GenJson(b, h) == JObject(SetItem(GenJson(a, h).members, it.key, leaf))
            else GenJson(b, h) == GenJson(a, h)
  {
    AppendedOrdered(a, h, it);
    var b := AppendChild(a + [it], h, |a|);
    GenJsonLeaf(b, |a|);
    var n := |a[h].children|;
    if a[h].typ == ListType {
      assert GenJson(b, h) == JArray(GenItems(b, h, n + 1));
      GenItemsFrame(a, b, h, n);
    } else if a[h].typ == DictType {
      assert GenJson(b, h) == JObject(GenMembers(b, h, n + 1));
      GenMembersFrame(a, b, h, n);
    }
  }

  /** An item without children serialises to an empty container or its own value. */
  lemma GenJsonLeaf(nodes: seq<Item>, h: Handle)
    requires Ordered(nodes) && h < |nodes| && nodes[h].children == []
    ensures GenJson(nodes, h) == LeafJson(nodes[h].typ, nodes[h].value)
  {
    assert GenMembers(nodes, h, 0) == [] && GenItems(nodes, h, 0) == [];
  }

  /** The appended item is stored after `h` and has no children, so the arena stays ordered. */
  lemma AppendedOrdered(a: seq<Item>, h: Handle, it: Item)
    requires Ordered(a) && h < |a| && it.children == []
    ensures Ordered(AppendChild(a + [it], h, |a|))
  {
    var b := AppendChild(a + [it], h, |a|);
    forall k, i | 0 <= k < |b| && 0 <= i < |b[k].children| ensures k < b[k].children[i] < |b| {
      if k != h && k < |a| {
        assert b[k] == a[k];
      }
    }
  }
}
