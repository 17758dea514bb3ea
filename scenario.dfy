/** The example program `main.cpp`: one `SharedRadixTree<int, int>` that
    is filled, looked up, cleared, refilled and copied, and one
    `shared_scalar_map` keyed by the address of a local variable.  The
    lines `main` is written to print are collected as numbers, an `empty()`
    printed as 1 or 0. */
module Scenario {
  import opened Bits
  import opened Wrappers
  import opened Trie
  import opened Heap
  import opened Arena
  import opened RadixTree
  import opened ScalarMap

  /** The key with bit pattern `n`. */
  function K(n: bv32): Key {
    Key(Word(n))
  }

  /** How `std::cout` prints a `bool`. */
  function Shown(b: bool): int {
    if b then 1 else 0
  }

  /** The first lines of `main`: a fresh container is empty, holds 0
      under 0 after one insertion, and is empty again after `clear()`. */
  method FirstLines(m: SharedRadixTree<int>) returns (e0: int, f0: int, e1: int, e2: int)
    requires m.Valid() && m.Map() == map[]
    modifies m, m.heap
    ensures m.Valid() && m.Map() == map[]
    ensures e0 == 1 && f0 == 0 && e1 == 0 && e2 == 1
  {
    e0 := Shown(m.Empty());
    var _, _ := m.Insert(K(0), 0);
    f0, e1 := m.Find(K(0)).value, Shown(m.Empty());
    m.Clear();
    e2 := Shown(m.Empty());
  }

  /** Inserting the keys 0 to 3, each with itself as value. */
  method Fill(m: SharedRadixTree<int>)
    requires m.Valid() && m.Map() == map[]
    modifies m, m.heap
    ensures m.Valid() && m.Map() == map[K(0) := 0, K(1) := 1, K(2) := 2, K(3) := 3]
  {
    var _, _ := m.Insert(K(0), 0);
    var _, _ := m.Insert(K(1), 1);
    var _, _ := m.Insert(K(2), 2);
    var _, _ := m.Insert(K(3), 3);
  }

  /** The middle lines of `main`: the refilled container is not empty
      and finds each key's value. */
  method FindLines(m: SharedRadixTree<int>) returns (e: int, f0: int, f1: int, f2: int, f3: int)
    requires m.Valid() && m.Map() == map[K(0) := 0, K(1) := 1, K(2) := 2, K(3) := 3]
    ensures e == 0 && f0 == 0 && f1 == 1 && f2 == 2 && f3 == 3
  {
    e := Shown(m.Empty());
    f0, f1, f2, f3 := m.Find(K(0)).value, m.Find(K(1)).value, m.Find(K(2)).value, m.Find(K(3)).value;
  }

  /** The last lines of `main`: a copy of a non-empty container is not
      empty, and neither is a scalar map after one insertion. */
  method LastLines(m: SharedRadixTree<int>, address: Word) returns (e: int, e3: int)
    requires m.Valid() && m.Map() != map[]
    modifies m.heap
    ensures e == 0 && e3 == 0
  {
    var m2 := new SharedRadixTree<int>.Copy(m);
    e := Shown(m2.Empty());
    var arena3 := new NodeHeap<int>();
    var m3 := new SharedScalarMap<int>(arena3);
    var _, _ := m3.Insert(Key(address), 0);
    e3 := Shown(m3.Empty());
  }

  /** The lines `main` is written to print, for the local variable at
      `address`, with the scalar map read as keyed by its own key bits. */
  method MainOutput(address: Word) returns (out: seq<int>)
    ensures out == [1, 0, 0, 1, 0, 0, 1, 2, 3, 0, 0]
  {
    var arena := new NodeHeap<int>();
    var m := new SharedRadixTree<int>(arena);
    var e0, f, e1, e2 := FirstLines(m);
    Fill(m);
    var e3, f0, f1, f2, f3 := FindLines(m);
    assert K(0) in m.Map();
    var e4, e5 := LastLines(m, address);
    out := [e0, f, e1, e2, e3, f0, f1, f2, f3, e4, e5];
  }

  /** Copying is constant time and the copies are independent: inserting
      into a container after copying it leaves the copy standing for the
      map the container held. */
  method InsertAfterCopy<V>(m: SharedRadixTree<V>, k: Key, v: V) returns (copy: SharedRadixTree<V>)
    requires m.Valid()
    modifies m, m.heap
    ensures copy.Valid() && m.Valid() && copy.heap == m.heap
    ensures copy.Map() == old(m.Map())
    ensures m.Map() == if k in old(m.Map()) then old(m.Map()) else old(m.Map())[k := v]
  {
    copy := new SharedRadixTree<V>.Copy(m);
    var _, _ := m.Insert(k, v);
    if copy.root.Some? {
      SubOptHas(m.heap.ext, m.root, copy.root.value);
    }
  }

  /** The same for erasing: the copy keeps the erased key. */
  method EraseAfterCopy<V>(m: SharedRadixTree<V>, k: Key) returns (copy: SharedRadixTree<V>)
    requires m.Valid()
    modifies m, m.heap
    ensures copy.Valid() && m.Valid() && copy.heap == m.heap
    ensures copy.Map() == old(m.Map()) && m.Map() == old(m.Map()) - {k}
  {
    copy := new SharedRadixTree<V>.Copy(m);
    var _ := m.Erase(k);
    if copy.root.Some? {
      SubOptHas(m.heap.ext, m.root, copy.root.value);
    }
  }

  /** Erasing from a copy leaves the original standing for its map. */
  method EraseFromCopyOf<V>(m: SharedRadixTree<V>, k: Key) returns (copy: SharedRadixTree<V>)
    requires m.Valid()
    modifies m.heap
    ensures copy.Valid() && m.Valid() && copy.heap == m.heap
    ensures m.Map() == old(m.Map()) && copy.Map() == old(m.Map()) - {k}
  {
    copy := new SharedRadixTree<V>.Copy(m);
    if m.root.Some? {
      assert Has(copy.Others(), m.root.value);
    }
    var _ := copy.Erase(k);
    if m.root.Some? {
      SubOptHas(copy.heap.ext, copy.root, m.root.value);
    }
  }

  /** After copying the container holding 0 to 3 and erasing 2 from the
      copy, the copy lacks 2, the original still maps it to 2, and neither
      is empty. */
  method EraseFromCopy() returns (copyFinds: Option<int>, originalFinds: Option<int>, bothFull: bool)
    ensures copyFinds == None && originalFinds == Some(2) && bothFull
  {
    var arena := new NodeHeap<int>();
    var m := new SharedRadixTree<int>(arena);
    Fill(m);
    var n := EraseFromCopyOf(m, K(2));
    assert K(2) !in n.Map() && K(0) in n.Map();
    copyFinds, originalFinds := n.Find(K(2)), m.Find(K(2));
    bothFull := !m.Empty() && !n.Empty();
  }

  /** An empty container: it is empty, erasing from it removes nothing, an
      insertion into it inserts, the key is then found, and after
      `clear()` it is empty again. */
  method EmptyContainer() returns (wasEmpty: bool, removed: nat, inserted: bool, found: Option<int>, isEmpty: bool)
    ensures wasEmpty && removed == 0 && inserted && found == Some(50) && isEmpty
  {
    var arena := new NodeHeap<int>();
    var m := new SharedRadixTree<int>(arena);
    wasEmpty := m.Empty();
    removed := m.Erase(K(5));
    var value;
    value, inserted := m.Insert(K(5), 50);
    found := m.Find(K(5));
    m.Clear();
    isEmpty := m.Empty();
  }
}
