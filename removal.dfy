/**
 * The two loops of `QJsonModel.removeRows`, on a child list and on the arena, and what
 * they do to the invariants of the tree.
 */
module Removal {
  import opened JsonValue
  import opened JsonTreeItem
  import opened Wrappers

  /**
   * The child list after `k` turns of `for n in range(row, row + count):
   * parent.removeChild(parent.child(n))`: turn `t` removes whatever is at position `row + t`
   * of the list as it is by then. Every turn stays in range while `row + 2 * k <= |cs| + 1`.
   */
  function Steps(cs: seq<Handle>, row: nat, k: nat): (r: seq<Handle>)
    requires row + 2 * k <= |cs| + 1
    ensures |r| == |cs| - k
  {
    if k == 0 then cs
    else
      var prev := Steps(cs, row, k - 1);
      RemoveChild(prev, prev[row + k - 1])
  }

  /**
   * Where the child at position `q` after `k` turns stood before the loop: positions before
   * `row` are untouched, the next `k - 1` are every second original child from `row + 1`
   * on, and after those everything has moved `k` places down.
   */
  function KeptAt(row: nat, k: nat, q: nat): nat {
    if q < row then q
    else if q + 1 < row + k then row + 1 + 2 * (q - row)
    else q + k
  }

  /** Positions before `row + k - 1` come from original positions before `row + 2k - 2`. */
  lemma KeptBefore(row: nat, k: nat, q: nat)
    requires 1 <= k && q < row + k - 1
    ensures KeptAt(row, k - 1, q) < row + 2 * k - 2
    ensures KeptAt(row, k, q) == KeptAt(row, k - 1, q)
  {
  }

  lemma KeptAfter(row: nat, k: nat, q: nat)
    requires 1 <= k && row + k - 1 <= q
    ensures KeptAt(row, k, q) == KeptAt(row, k - 1, q + 1)
  {
  }

  /** Positions in a list with one element taken out. */
  lemma RemovedAt(prev: seq<Handle>, i: nat, r: seq<Handle>)
    requires i < |prev| && r == prev[..i] + prev[i + 1..]
    ensures |r| == |prev| - 1
    ensures forall q | 0 <= q < |r| :: r[q] == if q < i then prev[q] else prev[q + 1]
  {
  }

  /** The list after one more turn, given where the children stood after the previous ones. */
  lemma KeepOneMore(cs: seq<Handle>, row: nat, k: nat, prev: seq<Handle>, r: seq<Handle>)
    requires 1 <= k && row + 2 * k <= |cs| + 1 && |prev| == |cs| - (k - 1)
    requires forall q | 0 <= q < |prev| :: KeptAt(row, k - 1, q) < |cs| && prev[q] == cs[KeptAt(row, k - 1, q)]
    requires r == prev[..row + k - 1] + prev[row + k..]
    ensures forall q | 0 <= q < |cs| - k :: KeptAt(row, k, q) < |cs| && r[q] == cs[KeptAt(row, k, q)]
  {
    var i := row + k - 1;
    RemovedAt(prev, i, r);
    forall q | 0 <= q < |cs| - k ensures KeptAt(row, k, q) < |cs| && r[q] == cs[KeptAt(row, k, q)] {
      if q < i {
        KeptBefore(row, k, q);
      } else {
        KeptAfter(row, k, q);
      }
    }
  }

  /** The child the next turn removes occurs only once in the list so far. */
  lemma NextIsFirst(cs: seq<Handle>, row: nat, k: nat, prev: seq<Handle>)
    requires DistinctHandles(cs) && 1 <= k && row + 2 * k <= |cs| + 1 && |prev| == |cs| - (k - 1)
    requires forall q | 0 <= q < |prev| :: KeptAt(row, k - 1, q) < |cs| && prev[q] == cs[KeptAt(row, k - 1, q)]
    ensures prev[row + k - 1] == cs[row + 2 * k - 2] && prev[row + k - 1] !in prev[..row + k - 1]
  {
    var i := row + k - 1;
    KeptAfter(row, k, i - 1 + 1);
    forall q | 0 <= q < i ensures prev[..i][q] != prev[i] {
      KeptBefore(row, k, q);
    }
  }

  /**
   * What the loop removes: after `k` turns the children that were at `row, row + 2, ...,
   * row + 2(k-1)` are gone and every other child keeps its order.
   */
  lemma {:induction false} StepsKeep(cs: seq<Handle>, row: nat, k: nat)
    requires DistinctHandles(cs) && row + 2 * k <= |cs| + 1
    ensures forall q | 0 <= q < |cs| - k :: KeptAt(row, k, q) < |cs| && Steps(cs, row, k)[q] == cs[KeptAt(row, k, q)]
  {
    if k > 0 {
      StepsKeep(cs, row, k - 1);
      var prev := Steps(cs, row, k - 1);
      var i := row + k - 1;
      NextIsFirst(cs, row, k, prev);
      IndexOfFirst(prev, i);
      KeepOneMore(cs, row, k, prev, Steps(cs, row, k));
    }
  }

  /** One turn of the loop, as the ensures of `removeRows(row, 1, parent)` uses it. */
  lemma RemoveOneStep(cs: seq<Handle>, row: nat)
    requires DistinctHandles(cs) && row < |cs|
    ensures Steps(cs, row, 1) == cs[..row] + cs[row + 1..]
  {
    StepsKeep(cs, row, 1);
  }

  /** `key - d` on an ordinal key; a name key is left as it is. */
  function Lowered(key: Key, d: int): Key {
    if key.Ordinal? then Ordinal(key.n - d) else key
  }

  /**
   * The second loop, `child.key = child.key - count` for each child of `hs` in turn, first
   * to last. `ShiftKeysShape` states what it does to lists of ordinal keys.
   */
  function ShiftKeys(nodes: seq<Item>, hs: seq<Handle>, d: int): (r: seq<Item>)
    ensures |r| == |nodes|
    decreases |hs|
  {
    if hs == [] then nodes
    else
      var c := hs[0];
      var next := if c < |nodes| then nodes[c := nodes[c].(key := Lowered(nodes[c].key, d))] else nodes;
      ShiftKeys(next, hs[1..], d)
  }

  /**
   * `r` is `nodes` with the ordinal key of every item listed in `hs` lowered by `d`: no other
   * field of those items changes, and no other item.
   */
  ghost predicate KeysLowered(nodes: seq<Item>, hs: seq<Handle>, d: int, r: seq<Item>) {
    && |r| == |nodes|
    && (forall k | 0 <= k < |nodes| :: r[k] == nodes[k].(key := r[k].key))
    && (forall i | 0 <= i < |hs| :: hs[i] < |nodes| && nodes[hs[i]].key.Ordinal? && r[hs[i]].key == Ordinal(nodes[hs[i]].key.n - d))
    && (forall k | 0 <= k < |nodes| && k !in hs :: r[k] == nodes[k])
  }

  /** Lowering the key of `c` first, then those of `tail`, lowers the keys of `[c] + tail`. */
  lemma KeysLoweredCons(nodes: seq<Item>, c: Handle, tail: seq<Handle>, d: int, r: seq<Item>)
    requires c < |nodes| && nodes[c].key.Ordinal? && c !in tail
    requires KeysLowered(nodes[c := nodes[c].(key := Ordinal(nodes[c].key.n - d))], tail, d, r)
    ensures KeysLowered(nodes, [c] + tail, d, r)
  {
    var hs := [c] + tail;
    forall i | 0 <= i < |hs| ensures hs[i] < |nodes| && nodes[hs[i]].key.Ordinal? && r[hs[i]].key == Ordinal(nodes[hs[i]].key.n - d) {
      if i > 0 {
        assert hs[i] == tail[i - 1];
      }
    }
  }

  /**
   * For distinct handles with ordinal keys, the listed items get their key lowered by `d`
   * and nothing else changes: no other field of them, and no other item.
   */
  lemma {:induction false} ShiftKeysShape(nodes: seq<Item>, hs: seq<Handle>, d: int)
    requires DistinctHandles(hs)
    requires forall i | 0 <= i < |hs| :: hs[i] < |nodes| && nodes[hs[i]].key.Ordinal?
    ensures KeysLowered(nodes, hs, d, ShiftKeys(nodes, hs, d))
    decreases |hs|
  {
    if hs != [] {
      var c := hs[0];
      var tail := hs[1..];
      var next := nodes[c := nodes[c].(key := Ordinal(nodes[c].key.n - d))];
      assert ShiftKeys(nodes, hs, d) == ShiftKeys(next, tail, d);
      assert DistinctHandles(tail) && c !in tail && forall i | 0 <= i < |tail| :: tail[i] < |next| && next[tail[i]].key.Ordinal? by {
        forall i | 0 <= i < |tail| ensures tail[i] == hs[i + 1] && tail[i] != c {
        }
      }
      ShiftKeysShape(next, tail, d);
      KeysLoweredCons(nodes, c, tail, d, ShiftKeys(next, tail, d));
      assert [c] + tail == hs;
    }
  }

  lemma KeptIncreasing(row: nat, k: nat, i: nat, j: nat)
    requires i < j
    ensures KeptAt(row, k, i) < KeptAt(row, k, j)
  {
  }

  /** The loop only takes children out, and the list keeps no repeats. */
  lemma StepsSubList(cs: seq<Handle>, row: nat, k: nat)
    requires DistinctHandles(cs) && row + 2 * k <= |cs| + 1
    ensures DistinctHandles(Steps(cs, row, k))
    ensures forall x | x in Steps(cs, row, k) :: x in cs
  {
    StepsKeep(cs, row, k);
    var r := Steps(cs, row, k);
    forall i, j | 0 <= i < j < |r| ensures r[i] != r[j] {
      KeptIncreasing(row, k, i, j);
    }
  }

  /**
   * Replacing a child list by some of its children, without repeats, keeps the arena well
   * formed; array keys stay dense when the item is not a `list`.
   */
  lemma ReplaceChildren(nodes: seq<Item>, p: Handle, cs: seq<Handle>)
    requires WellFormedArena(nodes) && p < |nodes| && DistinctHandles(cs)
    requires forall x | x in cs :: x in nodes[p].children
    ensures WellFormedArena(nodes[p := nodes[p].(children := cs)])
    ensures Dense(nodes) && nodes[p].typ != ListType ==> Dense(nodes[p := nodes[p].(children := cs)])
  {
    var r := nodes[p := nodes[p].(children := cs)];
    forall q, i | 0 <= q < |r| && 0 <= i < |r[q].children|
      ensures q < r[q].children[i] < |r| && r[r[q].children[i]].parent == Some(q)
      ensures nodes[q].typ == ListType ==> r[r[q].children[i]].key.Ordinal?
    {
      var x := r[q].children[i];
      if q == p {
        assert x in nodes[p].children;
        var j :| 0 <= j < |nodes[p].children| && nodes[p].children[j] == x;
        assert OrdinalKeysAt(nodes, p);
      } else {
        assert OrdinalKeysAt(nodes, q);
      }
    }
    if Dense(nodes) && nodes[p].typ != ListType {
      forall q | 0 <= q < |r| ensures DenseAt(r, q) {
        assert DenseAt(nodes, q);
      }
    }
  }

  /** Lowering ordinal keys keeps the arena well formed. */
  lemma ShiftKeysWellFormed(nodes: seq<Item>, hs: seq<Handle>, d: int)
    requires WellFormedArena(nodes) && DistinctHandles(hs)
    requires forall i | 0 <= i < |hs| :: hs[i] < |nodes| && nodes[hs[i]].key.Ordinal?
    ensures WellFormedArena(ShiftKeys(nodes, hs, d))
  {
    var r := ShiftKeys(nodes, hs, d);
    ShiftKeysShape(nodes, hs, d);
    forall q | 0 <= q < |r| ensures OrdinalKeysAt(r, q) {
      assert OrdinalKeysAt(nodes, q);
    }
  }

  /** Each child of the `list` has, after the shift, the key of its new position. */
  lemma RemoveOneKeys(nodes: seq<Item>, p: Handle, row: nat, hs: seq<Handle>, r: seq<Item>)
    requires WellFormedArena(nodes) && p < |nodes| && DenseAt(nodes, p) && nodes[p].typ == ListType
    requires row < |nodes[p].children| && hs == nodes[p].children[row + 1..]
    requires |r| == |nodes|
    requires forall k | 0 <= k < |nodes| && k != p ::
               r[k].key == if k in hs then Ordinal(nodes[k].key.n - 1) else nodes[k].key
    ensures forall i | 0 <= i < |nodes[p].children| && i != row ::
              r[nodes[p].children[i]].key == Ordinal(if i < row then i else i - 1)
  {
    var kids := nodes[p].children;
    forall i | 0 <= i < |kids| && i != row
      ensures r[kids[i]].key == Ordinal(if i < row then i else i - 1)
    {
      assert kids[i] in kids && p < kids[i];
      if i < row {
        assert kids[i] !in hs by {
          forall j | 0 <= j < |hs| ensures hs[j] != kids[i] {
            assert hs[j] == kids[row + 1 + j];
          }
        }
      } else {
        assert kids[i] == hs[i - row - 1];
      }
    }
  }

  /** The position keys of the shortened list are dense. */
  lemma RemoveOneDenseAt(r: seq<Item>, p: Handle, kids: seq<Handle>, row: nat)
    requires p < |r| && row < |kids| && r[p].children == kids[..row] + kids[row + 1..]
    requires forall i | 0 <= i < |kids| :: kids[i] < |r|
    requires forall i | 0 <= i < |kids| && i != row ::
               r[kids[i]].key == Ordinal(if i < row then i else i - 1)
    ensures DenseAt(r, p)
  {
    forall i | 0 <= i < |r[p].children| ensures r[r[p].children[i]].key == Ordinal(i) {
      if i < row {
        assert r[p].children[i] == kids[i];
      } else {
        assert r[p].children[i] == kids[i + 1];
      }
    }
  }

  /** Items other than the `list` keep dense keys: none of their children had a key lowered. */
  lemma RemoveOneDenseOther(nodes: seq<Item>, p: Handle, q: Handle, hs: seq<Handle>, r: seq<Item>)
    requires WellFormedArena(nodes) && p < |nodes| && q < |nodes| && q != p && DenseAt(nodes, q)
    requires forall x | x in hs :: x < |nodes| && nodes[x].parent == Some(p)
    requires |r| == |nodes| && r[q].children == nodes[q].children && r[q].typ == nodes[q].typ
    requires forall k | 0 <= k < |nodes| && k !in hs :: r[k].key == nodes[k].key
    ensures DenseAt(r, q)
  {
    if nodes[q].typ == ListType {
      forall i | 0 <= i < |r[q].children| ensures r[r[q].children[i]].key == Ordinal(i) {
        assert nodes[nodes[q].children[i]].parent == Some(q);
      }
    }
  }

  /**
   * `removeRows(row, 1, parent)` under a `list`: after the child at `row` is taken out and
   * every later child's key is lowered by one, array keys are dense again.
   */
  lemma RemoveOneDenseOthers(nodes: seq<Item>, p: Handle, mid: seq<Item>, hs: seq<Handle>, r: seq<Item>)
    requires WellFormedArena(nodes) && Dense(nodes) && p < |nodes|
    requires |mid| == |nodes| && forall k | 0 <= k < |nodes| && k != p :: mid[k] == nodes[k]
    requires mid[p].key == nodes[p].key
    requires DistinctHandles(hs) && forall i | 0 <= i < |hs| :: hs[i] < |mid| && mid[hs[i]].key.Ordinal?
    requires forall x | x in hs :: x < |nodes| && nodes[x].parent == Some(p)
    requires r == ShiftKeys(mid, hs, 1)
    ensures forall q | 0 <= q < |r| && q != p :: DenseAt(r, q)
  {
    ShiftKeysShape(mid, hs, 1);
    forall q | 0 <= q < |r| && q != p ensures DenseAt(r, q) {
      assert DenseAt(nodes, q);
      assert r[q].children == nodes[q].children && r[q].typ == nodes[q].typ;
      assert forall k | 0 <= k < |nodes| && k !in hs :: r[k].key == nodes[k].key;
      RemoveOneDenseOther(nodes, p, q, hs, r);
    }
  }

  lemma ShiftedByOne(nodes: seq<Item>, p: Handle, mid: seq<Item>, hs: seq<Handle>, r: seq<Item>)
    requires |mid| == |nodes| && forall k | 0 <= k < |nodes| && k != p :: mid[k] == nodes[k]
    requires DistinctHandles(hs) && forall i | 0 <= i < |hs| :: hs[i] < |mid| && mid[hs[i]].key.Ordinal?
    requires r == ShiftKeys(mid, hs, 1)
    ensures |r| == |nodes|
    ensures forall k | 0 <= k < |nodes| && k != p ::
              r[k].key == if k in hs then Ordinal(nodes[k].key.n - 1) else nodes[k].key
  {
    ShiftKeysShape(mid, hs, 1);
    forall k | 0 <= k < |nodes| && k != p && k in hs ensures r[k].key == Ordinal(nodes[k].key.n - 1) {
      var i :| 0 <= i < |hs| && hs[i] == k;
    }
  }

  lemma RemoveOneLater(nodes: seq<Item>, p: Handle, row: nat, mid: seq<Item>, hs: seq<Handle>)
    requires WellFormedArena(nodes) && p < |nodes| && nodes[p].typ == ListType
    requires row < |nodes[p].children|
    requires mid == nodes[p := nodes[p].(children := nodes[p].children[..row] + nodes[p].children[row + 1..])]
    requires hs == nodes[p].children[row + 1..]
    ensures DistinctHandles(hs) && forall i | 0 <= i < |hs| :: hs[i] < |mid| && mid[hs[i]].key.Ordinal?
    ensures forall x | x in hs :: x < |nodes| && nodes[x].parent == Some(p)
  {
    TailKeys(nodes, p, row + 1);
    forall x | x in hs ensures x < |nodes| && nodes[x].parent == Some(p) {
      var j :| 0 <= j < |hs| && hs[j] == x;
      assert x == nodes[p].children[row + 1 + j];
    }
  }

  lemma RemoveOneDense(nodes: seq<Item>, p: Handle, row: nat, mid: seq<Item>, hs: seq<Handle>)
    requires WellFormedArena(nodes) && Dense(nodes) && p < |nodes| && nodes[p].typ == ListType
    requires row < |nodes[p].children|
    requires mid == nodes[p := nodes[p].(children := nodes[p].children[..row] + nodes[p].children[row + 1..])]
    requires hs == nodes[p].children[row + 1..]
    ensures DistinctHandles(hs) && forall i | 0 <= i < |hs| :: hs[i] < |mid| && mid[hs[i]].key.Ordinal?
    ensures Dense(ShiftKeys(mid, hs, 1))
  {
    RemoveOneLater(nodes, p, row, mid, hs);
    var r := ShiftKeys(mid, hs, 1);
    assert Dense(r) by {
      assert DenseAt(r, p) by {
        assert DenseAt(nodes, p);
        ShiftedByOne(nodes, p, mid, hs, r);
        ShiftKeysShape(mid, hs, 1);
        RemoveOneKeys(nodes, p, row, hs, r);
        RemoveOneDenseAt(r, p, nodes[p].children, row);
      }
      RemoveOneDenseOthers(nodes, p, mid, hs, r);
    }
  }

  /**
   * The number of turns the first loop of `removeRows` completes before `child(n)` runs past
   * the end of a list that started with `size` children, when it does.
   */
  function TurnsDone(size: nat, row: nat): (k: nat)
    requires row <= size
    ensures size <= row + 2 * k <= size + 1
  {
    (size - row + 1) / 2
  }

  /** The arena after `k` turns of the first loop over the children of `p`. */
  function Removed(nodes: seq<Item>, p: Handle, row: nat, k: nat): (r: seq<Item>)
    requires WellFormedArena(nodes) && p < |nodes| && row + 2 * k <= |nodes[p].children| + 1
    ensures WellFormedArena(r) && |r| == |nodes|
    ensures forall h | 0 <= h < |r| :: r[h].parent == nodes[h].parent && r[h].typ == nodes[h].typ
    ensures forall h | 0 <= h < |r| :: r[h] == nodes[h].(children := r[h].children)
    ensures forall h | 0 <= h < |r| && h != p :: r[h].children == nodes[h].children
    ensures Dense(nodes) && nodes[p].typ != ListType ==> Dense(r)
  {
    var cs := Steps(nodes[p].children, row, k);
    StepsSubList(nodes[p].children, row, k);
    ReplaceChildren(nodes, p, cs);
    nodes[p := nodes[p].(children := cs)]
  }

  /**
   * The arena after `removeRows(row, count, parent)` ran both loops to the end over the
   * children of `p`: the first loop's removals, then, under a `list`, the keys of the
   * children from position `row + count - 1` on lowered by `count`. With a count of 1 this
   * takes out exactly the child at `row` and keeps array keys dense.
   */
  function AfterRemoval(nodes: seq<Item>, p: Handle, row: nat, count: nat): (r: seq<Item>)
    requires WellFormedArena(nodes) && p < |nodes|
    requires 1 <= count && row + 2 * (count - 1) < |nodes[p].children|
    ensures WellFormedArena(r) && |r| == |nodes|
    ensures forall h | 0 <= h < |r| :: r[h].parent == nodes[h].parent
    ensures count == 1 ==> r[p].children == nodes[p].children[..row] + nodes[p].children[row + 1..]
    ensures forall h | 0 <= h < |r| && h != p :: r[h].children == nodes[h].children
    ensures nodes[p].typ != ListType ==> forall h | 0 <= h < |r| :: r[h].key == nodes[h].key
    ensures forall h | 0 <= h < |r| :: r[h].value == nodes[h].value && r[h].typ == nodes[h].typ
    ensures Dense(nodes) && (count == 1 || nodes[p].typ != ListType) ==> Dense(r)
  {
    var mid := Removed(nodes, p, row, count);
    if nodes[p].typ == ListType then
      var r := ShiftKeys(mid, mid[p].children[row + count - 1..], count);
      ShiftedRemoval(nodes, p, row, count, mid, mid[p].children[row + count - 1..], r);
      r
    else
      assert DistinctHandles(nodes[p].children);
      RemoveOneStep(nodes[p].children, row);
      mid
  }

  /** Under a `list`, the second loop after the first keeps what `AfterRemoval` promises. */
  lemma ShiftedRemoval(nodes: seq<Item>, p: Handle, row: nat, count: nat, mid: seq<Item>, hs: seq<Handle>, r: seq<Item>)
    requires WellFormedArena(nodes) && p < |nodes| && nodes[p].typ == ListType
    requires 1 <= count && row + 2 * (count - 1) < |nodes[p].children|
    requires mid == Removed(nodes, p, row, count) && hs == mid[p].children[row + count - 1..]
    requires r == ShiftKeys(mid, hs, count)
    ensures WellFormedArena(r) && |r| == |nodes|
    ensures forall h | 0 <= h < |r| :: r[h].parent == nodes[h].parent
    ensures count == 1 ==> r[p].children == nodes[p].children[..row] + nodes[p].children[row + 1..]
    ensures forall h | 0 <= h < |r| && h != p :: r[h].children == nodes[h].children
    ensures forall h | 0 <= h < |r| :: r[h].value == nodes[h].value && r[h].typ == nodes[h].typ
    ensures Dense(nodes) && count == 1 ==> Dense(r)
  {
    TailKeys(mid, p, row + count - 1);
    ShiftKeysWellFormed(mid, hs, count);
    ShiftKeysShape(mid, hs, count);
    ShiftedFrame(nodes, mid, p, hs, count, r);
    RemovedOneDense(nodes, p, row, count, mid, hs, r);
  }

  /** Lowering keys after replacing one child list changes no parent, value, type or other child list. */
  lemma ShiftedFrame(nodes: seq<Item>, mid: seq<Item>, p: Handle, hs: seq<Handle>, d: int, r: seq<Item>)
    requires |mid| == |nodes| && p < |nodes|
    requires forall h | 0 <= h < |mid| :: mid[h] == nodes[h].(children := mid[h].children)
    requires forall h | 0 <= h < |mid| && h != p :: mid[h].children == nodes[h].children
    requires KeysLowered(mid, hs, d, r)
    ensures |r| == |nodes| && r[p].children == mid[p].children
    ensures forall h | 0 <= h < |r| :: r[h].parent == nodes[h].parent && r[h].value == nodes[h].value && r[h].typ == nodes[h].typ
    ensures forall h | 0 <= h < |r| && h != p :: r[h].children == nodes[h].children
  {
    forall h | 0 <= h < |r| ensures r[h] == nodes[h].(children := mid[h].children, key := r[h].key) {
      assert r[h] == mid[h].(key := r[h].key);
    }
  }

  /** The children of a `list` from position `start` on are distinct and have ordinal keys. */
  lemma TailKeys(nodes: seq<Item>, p: Handle, start: nat)
    requires WellFormedArena(nodes) && p < |nodes| && nodes[p].typ == ListType
    requires start <= |nodes[p].children|
    ensures var hs := nodes[p].children[start..];
            DistinctHandles(hs) && forall i | 0 <= i < |hs| :: hs[i] < |nodes| && nodes[hs[i]].key.Ordinal?
  {
    var kids := nodes[p].children;
    assert OrdinalKeysAt(nodes, p) && DistinctHandles(kids);
    forall i | 0 <= i < |kids| - start ensures kids[start..][i] == kids[start + i] {
    }
  }

  /** After `count >= 2` turns, position `row` holds the child that stood at `row + 1`. */
  lemma SecondAtRow(cs: seq<Handle>, row: nat, count: nat)
    requires DistinctHandles(cs) && 2 <= count && row + 2 * (count - 1) < |cs|
    ensures row < |Steps(cs, row, count)| && Steps(cs, row, count)[row] == cs[row + 1]
  {
    StepsKeep(cs, row, count);
    assert KeptAt(row, count, row) == row + 1;
  }

  /**
   * With a count above 1 under a `list` the keys are no longer dense: position `row` then
   * holds the child first at `row + 1`, whose key `row + 1` the second loop leaves alone,
   * because that loop starts at position `row + count - 1`.
   */
  lemma NotDenseAboveOne(nodes: seq<Item>, p: Handle, row: nat, count: nat)
    requires WellFormedArena(nodes) && Dense(nodes) && p < |nodes| && nodes[p].typ == ListType
    requires 2 <= count && row + 2 * (count - 1) < |nodes[p].children|
    ensures !Dense(AfterRemoval(nodes, p, row, count))
  {
    var cs := nodes[p].children;
    var mid := Removed(nodes, p, row, count);
    var kids := mid[p].children;
    assert kids == Steps(cs, row, count);
    assert DistinctHandles(cs);
    SecondAtRow(cs, row, count);
    var c := kids[row];
    TailKeys(mid, p, row + count - 1);
    var r := AfterRemoval(nodes, p, row, count);
    assert r == ShiftKeys(mid, kids[row + count - 1..], count);
    assert DistinctHandles(kids);
    UnshiftedBefore(mid, kids, row + count - 1, row, count);
    assert p < c;
    assert DenseAt(nodes, p);
    assert r[p].children[row] == c && r[c].key == Ordinal(row + 1);
  }

  /** The second loop leaves alone the children before the position it starts at. */
  lemma UnshiftedBefore(nodes: seq<Item>, kids: seq<Handle>, start: nat, row: nat, d: int)
    requires row < start <= |kids| && DistinctHandles(kids)
    requires forall i | 0 <= i < |kids[start..]| :: kids[start..][i] < |nodes| && nodes[kids[start..][i]].key.Ordinal?
    ensures var r := ShiftKeys(nodes, kids[start..], d);
            |r| == |nodes| && (forall k | 0 <= k < |nodes| :: r[k].children == nodes[k].children) &&
            (kids[row] < |nodes| ==> r[kids[row]] == nodes[kids[row]])
  {
    var hs := kids[start..];
    assert DistinctHandles(hs) by {
      forall i, j | 0 <= i < j < |hs| ensures hs[i] != hs[j] {
        assert hs[i] == kids[start + i] && hs[j] == kids[start + j];
      }
    }
    ShiftKeysShape(nodes, hs, d);
    forall j | 0 <= j < |hs| ensures hs[j] != kids[row] {
      assert hs[j] == kids[start + j];
    }
  }

  lemma RemovedOneDense(nodes: seq<Item>, p: Handle, row: nat, count: nat, mid: seq<Item>, hs: seq<Handle>, r: seq<Item>)
    requires WellFormedArena(nodes) && p < |nodes| && nodes[p].typ == ListType
    requires 1 <= count && row + 2 * (count - 1) < |nodes[p].children|
    requires mid == Removed(nodes, p, row, count) && hs == mid[p].children[row + count - 1..]
    requires DistinctHandles(hs) && forall i | 0 <= i < |hs| :: hs[i] < |mid| && mid[hs[i]].key.Ordinal?
    requires r == ShiftKeys(mid, hs, count)
    ensures count == 1 ==> r[p].children == nodes[p].children[..row] + nodes[p].children[row + 1..]
    ensures count == 1 && Dense(nodes) ==> Dense(r)
  {
    ShiftKeysShape(mid, hs, count);
    if count == 1 {
      var cs := nodes[p].children;
      RemoveOneStep(cs, row);
      assert mid == nodes[p := nodes[p].(children := cs[..row] + cs[row + 1..])];
      assert mid[p].children[row..] == cs[row + 1..];
      if Dense(nodes) {
        RemoveOneDense(nodes, p, row, mid, cs[row + 1..]);
      }
    }
  }

  /**
   * The second loop of `removeRows` under a `list`: for n from `start` to the end of `kids`,
   * `child(n).key = child(n).key - d`, on a copy of the arena.
   */
  method LowerKeys(nodes: seq<Item>, kids: seq<Handle>, start: nat, d: int) returns (arena: seq<Item>)
    requires start <= |kids| && DistinctHandles(kids)
    requires forall i | 0 <= i < |kids| :: kids[i] < |nodes| && nodes[kids[i]].key.Ordinal?
    ensures arena == ShiftKeys(nodes, kids[start..], d)
  {
    arena := nodes;
    var m := start;
    while m < |kids|
      invariant start <= m <= |kids| && |arena| == |nodes|
      invariant forall i | m <= i < |kids| :: arena[kids[i]] == nodes[kids[i]]
      invariant ShiftKeys(arena, kids[m..], d) == ShiftKeys(nodes, kids[start..], d)
    {
      var c := kids[m];
      assert kids[m..][0] == c && kids[m..][1..] == kids[m + 1..];
      arena := arena[c := arena[c].(key := Ordinal(arena[c].key.n - d))];
      m := m + 1;
    }
  }

  /**
   * Both loops of `removeRows` on the item `p`, once its range check has passed: the first
   * loop's turns, then, when they all succeed under a `list`, the second loop's key update.
   */
  method RemoveFrom(nodes: seq<Item>, p: Handle, row: nat, count: nat) returns (arena: seq<Item>, completed: bool)
    requires WellFormedArena(nodes) && p < |nodes|
    requires 1 <= count && row + count <= |nodes[p].children|
    ensures completed == (row + 2 * (count - 1) < |nodes[p].children|)
    ensures completed ==> arena == AfterRemoval(nodes, p, row, count)
    ensures !completed ==> arena == Removed(nodes, p, row, TurnsDone(|nodes[p].children|, row))
  {
    var kids;
    kids, completed := RemoveTurns(nodes[p].children, row, count);
    arena := nodes[p := nodes[p].(children := kids)];
    if !completed {
      assert arena == Removed(nodes, p, row, TurnsDone(|nodes[p].children|, row));
      return;
    }
    assert arena == Removed(nodes, p, row, count);
    if arena[p].typ == ListType {
      assert OrdinalKeysAt(arena, p) && DistinctHandles(arena[p].children);
      arena := LowerKeys(arena, arena[p].children, row + count - 1, count);
    }
    assert arena == AfterRemoval(nodes, p, row, count);
  }

  /**
   * The first loop of `removeRows`: `parentItem.removeChild(parentItem.child(n))` for n from
   * `row` to `row + count - 1`, on a copy of the child list, stopping at the first n past the
   * end of the shrunken list, where `child(n)` raises IndexError.
   */
  method RemoveTurns(cs: seq<Handle>, row: nat, count: nat) returns (kids: seq<Handle>, completed: bool)
    requires 1 <= count && row + count <= |cs|
    ensures completed == (row + 2 * (count - 1) < |cs|)
    ensures completed ==> kids == Steps(cs, row, count)
    ensures !completed ==> kids == Steps(cs, row, TurnsDone(|cs|, row))
  {
    kids := cs;
    var n := row;
    ghost var k := 0;
    while n < row + count
      invariant n == row + k && k <= count && row + 2 * k <= |cs| + 1
      invariant kids == Steps(cs, row, k)
    {
      if n >= |kids| {
        assert k == TurnsDone(|cs|, row);
        return kids, false;
      }
      kids := RemoveChild(kids, kids[n]);
      n, k := n + 1, k + 1;
    }
    return kids, true;
  }
}
