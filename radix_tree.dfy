/** The container `SharedRadixTree`: a handle to the root node (`fNode`),
    null for an empty container.  Copying a container copies the handle,
    so copies share their nodes; `insert` and `erase` go through the
    `_unique` node operations, which change in place only what the
    container's handle owns exclusively and copy the rest.  Each operation
    is specified by the map the container stands for, and states that the
    tries behind all other outside handles, including other containers on
    the same arena, are unchanged. */
module RadixTree {
  import opened Bits
  import opened Wrappers
  import opened Trie
  import opened Heap
  import opened Arena
  import opened Nodes

  class SharedRadixTree<V> {
    /** The arena holding the nodes; copies of a container share it. */
    const heap: NodeHeap<V>
    /** `fNode`: the root handle, none for an empty container. */
    var root: Option<Ref>

    ghost predicate Valid()
      reads this, heap
    {
      heap.Valid() && (root.Some? ==> Has(heap.ext, root.value) && root.value in heap.cells)
    }

    /** The map the container stands for. */
    ghost function Map(): map<Key, V>
      reads this, heap
      requires Valid()
    {
      OptContents(AbsOpt(heap.cells, root))
    }

    /** The outside handles other than this container's root. */
    ghost function Others(): Handles
      reads this, heap
    {
      SubOpt(heap.ext, root)
    }

    /** The default constructor: an empty container. */
    constructor (h: NodeHeap<V>)
      requires h.Valid()
      ensures Valid() && heap == h && root == None && Map() == map[] && Others() == h.ext
    {
      heap, root := h, None;
    }

    /** The copy constructor: the copy takes a new handle to the same root
        node, so it stands for the same map, and the original sees the
        copy's handle among the other handles. */
    constructor Copy(t: SharedRadixTree<V>)
      requires t.Valid()
      modifies t.heap
      ensures Valid() && t.Valid() && heap == t.heap && root == t.root
      ensures Map() == old(t.Map()) && t.Map() == old(t.Map())
      ensures heap.cells == old(t.heap.cells) && Others() == old(t.heap.ext)
      ensures root.Some? ==> Has(t.Others(), root.value)
    {
      heap, root := t.heap, t.root;
      new;
      if root.Some? {
        var r := root.value;
        ExtLive(heap.cells, heap.count, heap.next, heap.ext, r);
        heap.Copy(r);
        SubAdd(old(t.heap.ext), r);
        AddHas(old(t.heap.ext), r, r);
      }
    }

    /** `insert`: an absent key is added with its value; a present key keeps
        its value.  The result is the value now stored under the key (the
        iterator's target) and whether the key was absent. */
    method Insert(k: Key, v: V) returns (value: V, inserted: bool)
      requires Valid()
      modifies this, heap
      ensures Valid()
      ensures Map() == if k in old(Map()) then old(Map()) else old(Map())[k := v]
      ensures inserted == (k !in old(Map()))
      ensures value == if k in old(Map()) then old(Map())[k] else v
      ensures Others() == old(Others())
      ensures Persists(old(heap.cells), heap.cells, old(Others()))
    {
      ghost var c0, k0, n0, e0 := heap.cells, heap.count, heap.next, heap.ext;
      match root
      case None =>
        var y := heap.NewLeaf(k, v);
        root := Some(y);
        value, inserted := v, true;
        SubAdd(e0, y);
        AddHas(e0, y, y);
        PersistsAll(c0, k0, n0, e0, heap.cells);
      case Some(r) =>
        ExtLive(c0, k0, n0, e0, r);
        var y;
        y, value, inserted := InsertUnique(heap, r, k, v);
        SwapRoot(e0, r, Some(y));
        ghost var c1 := heap.cells;
        heap.Release(r);
        root := Some(y);
        InsertContents(Abs(c0, r), k, v);
        InsertReports(Abs(c0, r), k, v);
        PersistsOutside(c0, k0, n0, e0, r, c1);
    }

    /** `find`: the value stored under the key, none for an absent key (the
        `end()` iterator). */
    function Find(k: Key): (r: Option<V>)
      reads this, heap
      requires Valid()
      ensures r == if k in Map() then Some(Map()[k]) else None
    {
      match root
      case None => None
      case Some(x) => FindAt(heap, x, k)
    }

    /** `erase`: the key is removed and nothing else; the result is the
        number of elements removed. */
    method Erase(k: Key) returns (removed: nat)
      requires Valid()
      modifies this, heap
      ensures Valid()
      ensures Map() == old(Map()) - {k}
      ensures removed == if k in old(Map()) then 1 else 0
      ensures Others() == old(Others())
      ensures Persists(old(heap.cells), heap.cells, old(Others()))
    {
      ghost var c0, k0, n0, e0 := heap.cells, heap.count, heap.next, heap.ext;
      match root
      case None =>
        removed := 0;
        PersistsAll(c0, k0, n0, e0, heap.cells);
        assert Map() == old(Map()) - {k};
      case Some(r) =>
        ExtLive(c0, k0, n0, e0, r);
        var y;
        y, removed := EraseUnique(heap, r, k);
        SwapRoot(e0, r, y);
        ghost var c1 := heap.cells;
        heap.Release(r);
        root := y;
        EraseContents(Abs(c0, r), k);
        EraseRemoved(Abs(c0, r), k);
        PersistsOutside(c0, k0, n0, e0, r, c1);
    }

    /** `clear`: the root handle is destroyed; no node changes. */
    method Clear()
      requires Valid()
      modifies this, heap
      ensures Valid() && Map() == map[]
      ensures Others() == old(Others()) && heap.cells == old(heap.cells)
    {
      if root.Some? {
        heap.Release(root.value);
      }
      root := None;
    }

    /** `empty`: the container stands for the empty map exactly when its
        root handle is null. */
    function Empty(): (r: bool)
      reads this, heap
      requires Valid()
      ensures r <==> Map() == map[]
    {
      if root.None? then true
      else
        NonEmpty(Abs(heap.cells, root.value));
        false
    }
  }
}
