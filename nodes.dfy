/** The node operations of `SharedRadixTree` on the arena: `make_branch`,
    `find`, and the `insert_*`/`erase_*` members of `leaf` and `branch`.
    Each operation is proved against the value-level trie of module `Trie`:
    the node it returns stands for what `Trie.Insert` or `Trie.Erase`
    computes from the node it was given.  The `_shared` operations only
    allocate and copy handles, so every node that existed keeps its body;
    the `_unique` operations may also rewrite the nodes owned exclusively
    through the handle they were given, and no other node.  The `_left_`
    and `_right_` members of `branch` mirror each other and are modelled
    once, with the side as a parameter. */
module Nodes {
  import opened Bits
  import opened Wrappers
  import opened Trie
  import opened Heap
  import opened Arena

  /** Every node of `c0` is still allocated in `c1`, with the same head:
      re-linking a child never changes a node's prefix or mask. */
  ghost predicate HeadsKept<V>(c0: map<Ref, Cell<V>>, c1: map<Ref, Cell<V>>) {
    forall z | z in c0 :: z in c1 && CellHead(c1[z]) == CellHead(c0[z])
  }

  /** The counts of the nodes higher than `x` are as they were: an
      operation on `x` leaves the parents of `x` live. */
  ghost predicate CountsAbove<V>(c0: map<Ref, Cell<V>>, k0: map<Ref, nat>, k1: map<Ref, nat>, x: Ref)
    requires x in c0
  {
    forall z | z in c0 && z in k0 && Below(Height(c0[x]), Height(c0[z])) :: z in k1 && k1[z] == k0[z]
  }

  /** Branch body `b` is a copy of branch body `c` with a new handle on
      side `left`: the same prefix and mask, and the very same handle on the
      other side, which the two branches then share. */
  predicate SameSibling<V>(c: Cell<V>, b: Cell<V>, left: bool) {
    c.BranchCell? && b.BranchCell? && b.prefix == c.prefix && b.mask == c.mask
    && Child(b, !left) == Child(c, !left)
  }

  /** What an optional handle stands for: none for an empty handle. */
  ghost function AbsOpt<V>(cells: map<Ref, Cell<V>>, o: Option<Ref>): (r: Option<Node<V>>)
    requires Shaped(cells) && (o.Some? ==> o.value in cells)
    ensures r.Some? == o.Some?
  {
    match o
    case None => None
    case Some(x) => Some(Abs(cells, x))
  }

  // ---------------------------------------------------------------------
  // Frame steps

  /** Agreement carries over a second step that keeps every node. */
  lemma AgreeTrans<V>(c0: map<Ref, Cell<V>>, c1: map<Ref, Cell<V>>, c2: map<Ref, Cell<V>>, s: set<Ref>)
    requires Agree(c0, c1, s) && Agree(c1, c2, c1.Keys)
    ensures Agree(c0, c2, s)
  {
  }

  /** Agreement outside `o` gives agreement on a set disjoint from it. */
  lemma AgreeOutside<V>(c0: map<Ref, Cell<V>>, c1: map<Ref, Cell<V>>, o: set<Ref>, s: set<Ref>)
    requires Agree(c0, c1, c0.Keys - o) && s !! o
    ensures Agree(c0, c1, s)
  {
  }

  /** Rewriting node `x` of what `o` holds, after a step that changed
      only what `oc` holds, with `oc` part of `o`, changes only what `o`
      holds; and if the head stays, every head stays. */
  lemma AgreeRewrite<V>(c0: map<Ref, Cell<V>>, c1: map<Ref, Cell<V>>, o: set<Ref>, oc: set<Ref>, x: Ref, b: Cell<V>)
    requires Agree(c0, c1, c0.Keys - oc) && oc <= o && x in o
    requires HeadsKept(c0, c1) && x in c1 && CellHead(b) == CellHead(c1[x])
    ensures Agree(c0, c1[x := b], c0.Keys - o) && HeadsKept(c0, c1[x := b])
  {
  }

  /** A step that keeps every body keeps every head. */
  lemma AgreeHeads<V>(c0: map<Ref, Cell<V>>, c1: map<Ref, Cell<V>>)
    requires Agree(c0, c1, c0.Keys)
    ensures HeadsKept(c0, c1)
  {
  }

  /** The count frame of a step on a child carries to its parent. */
  lemma AboveTrans<V>(c0: map<Ref, Cell<V>>, k0: map<Ref, nat>, k1: map<Ref, nat>, c: Ref, x: Ref)
    requires c in c0 && x in c0 && Below(Height(c0[c]), Height(c0[x]))
    requires CountsAbove(c0, k0, k1, c)
    ensures CountsAbove(c0, k0, k1, x)
  {
    forall z | z in c0 && z in k0 && Below(Height(c0[x]), Height(c0[z]))
      ensures z in k1 && k1[z] == k0[z]
    {
      BelowTrans(Height(c0[c]), Height(c0[x]), Height(c0[z]));
    }
  }

  /** Count frames of `x` compose over steps that keep every head. */
  lemma AboveCompose<V>(c0: map<Ref, Cell<V>>, c1: map<Ref, Cell<V>>, k0: map<Ref, nat>, k1: map<Ref, nat>,
                        k2: map<Ref, nat>, x: Ref)
    requires x in c0 && HeadsKept(c0, c1) && CountsAbove(c0, k0, k1, x) && CountsAbove(c1, k1, k2, x)
    ensures CountsAbove(c0, k0, k2, x)
  {
  }

  /** Changing the count of a node that is new or not higher than `x`
      keeps the count frame of `x`. */
  lemma AboveUpdate<V>(c0: map<Ref, Cell<V>>, k0: map<Ref, nat>, k1: map<Ref, nat>, x: Ref, z: Ref, n: nat)
    requires x in c0 && CountsAbove(c0, k0, k1, x)
    requires z in c0 ==> !Below(Height(c0[x]), Height(c0[z]))
    ensures CountsAbove(c0, k0, k1[z := n], x)
  {
  }

  /** A node higher than branch `x` cannot be reached from a child `c` of
      `x`, in any later arena that keeps the heads. */
  lemma AboveNotReached<V>(c0: map<Ref, Cell<V>>, c1: map<Ref, Cell<V>>, c: Ref, x: Ref, z: Ref)
    requires Shaped(c1) && HeadsKept(c0, c1) && c in c0 && x in c0 && z in c0
    requires Below(Height(c0[c]), Height(c0[x])) && Below(Height(c0[x]), Height(c0[z]))
    ensures z !in Reach(c1, c)
  {
    if z in Reach(c1, c) {
      ReachLower(c1, c, z);
      if z == c {
        BelowAsym(Height(c0[c]), Height(c0[x]));
      } else {
        BelowTrans(Height(c0[z]), Height(c0[c]), Height(c0[x]));
        BelowTrans(Height(c0[z]), Height(c0[x]), Height(c0[z]));
        BelowIrrefl(Height(c0[z]));
      }
      assert false;
    }
  }

  /** Releasing a handle to a child `c` of `x` keeps the count frame of
      `x`. */
  lemma AboveRelease<V>(c0: map<Ref, Cell<V>>, k0: map<Ref, nat>, c1: map<Ref, Cell<V>>,
                        k1: map<Ref, nat>, k2: map<Ref, nat>, c: Ref, x: Ref)
    requires Shaped(c1) && HeadsKept(c0, c1) && c in c0 && x in c0 && Below(Height(c0[c]), Height(c0[x]))
    requires CountsAbove(c0, k0, k1, x)
    requires forall z | z in k1 && z !in Reach(c1, c) :: z in k2 && k2[z] == k1[z]
    ensures CountsAbove(c0, k0, k2, x)
  {
    forall z | z in c0 && z in k0 && Below(Height(c0[x]), Height(c0[z]))
      ensures z in k2 && k2[z] == k0[z]
    {
      AboveNotReached(c0, c1, c, x, z);
    }
  }

  /** What a handle to a branch with count 1 owns: the branch and what its
      child handles own. */
  lemma OwnedSide<V>(cells: map<Ref, Cell<V>>, count: map<Ref, nat>, x: Ref, left: bool)
    requires Shaped(cells) && x in cells && x in count && count[x] == 1 && cells[x].BranchCell?
    ensures Child(cells[x], left) in cells
    ensures x in Owned(cells, count, x) && Owned(cells, count, Child(cells[x], left)) <= Owned(cells, count, x)
  {
    assert CellOk(cells, x);
  }

  /** The facts about branch `x` that the step into its child on side
      `left` uses: the other child hangs on the other side and is lower,
      and inserting into the child keeps it fit for side `left`. */
  lemma SideSteps<V>(cells: map<Ref, Cell<V>>, x: Ref, left: bool, k: Key, v: V)
    requires Shaped(cells) && x in cells && cells[x].BranchCell?
    requires !NotMem(k.bits, cells[x].prefix, cells[x].mask) && Left(k.bits, cells[x].mask) == left
    ensures Child(cells[x], left) in cells && Child(cells[x], !left) in cells
    ensures IsMask(cells[x].mask) && IsPrefix(cells[x].prefix, cells[x].mask)
    ensures EdgeOk(cells[x].prefix, cells[x].mask, CellHead(cells[Child(cells[x], !left)]), !left)
    ensures EdgeOk(cells[x].prefix, cells[x].mask, HeadOf(Trie.Insert(Abs(cells, Child(cells[x], left)), k, v).node), left)
    ensures Below(Height(cells[Child(cells[x], left)]), Height(cells[x]))
    ensures !Below(Height(cells[x]), Height(cells[Child(cells[x], !left)]))
  {
    assert CellOk(cells, x);
    var c, s := Child(cells[x], left), Child(cells[x], !left);
    InsertEdge(Abs(cells, c), k, v, cells[x].prefix, cells[x].mask, left);
    ChildBelow(cells, x, c);
    ChildBelow(cells, x, s);
    BelowAsym(Height(cells[s]), Height(cells[x]));
  }

  /** The facts about branch `x` that the step of an erasure into its
      child on side `left` uses. */
  lemma EraseSteps<V>(cells: map<Ref, Cell<V>>, x: Ref, left: bool, k: Key)
    requires Shaped(cells) && x in cells && cells[x].BranchCell?
    ensures Child(cells[x], left) in cells && Child(cells[x], !left) in cells
    ensures IsMask(cells[x].mask) && IsPrefix(cells[x].prefix, cells[x].mask)
    ensures EdgeOk(cells[x].prefix, cells[x].mask, CellHead(cells[Child(cells[x], !left)]), !left)
    ensures Trie.Erase(Abs(cells, Child(cells[x], left)), k).node.Some?
        ==> EdgeOk(cells[x].prefix, cells[x].mask,
                   HeadOf(Trie.Erase(Abs(cells, Child(cells[x], left)), k).node.value), left)
    ensures Below(Height(cells[Child(cells[x], left)]), Height(cells[x]))
    ensures !Below(Height(cells[x]), Height(cells[Child(cells[x], !left)]))
  {
    assert CellOk(cells, x);
    var c, s := Child(cells[x], left), Child(cells[x], !left);
    if Trie.Erase(Abs(cells, c), k).node.Some? {
      EraseEdge(Abs(cells, c), k, cells[x].prefix, cells[x].mask, left);
    }
    ChildBelow(cells, x, c);
    ChildBelow(cells, x, s);
    BelowAsym(Height(cells[s]), Height(cells[x]));
  }

  // ---------------------------------------------------------------------
  // Building nodes

  /** `make_branch`: a new branch over two outside handles, which it takes
      over, split at the most significant bit where their prefixes
      differ. */
  method MakeBranch<V>(h: NodeHeap<V>, p1: Word, n1: Ref, p2: Word, n2: Ref) returns (y: Ref)
    requires h.Valid() && p1 != p2
    requires Has(h.ext, n1) && Has(h.ext, n2) && n1 in h.cells && n2 in h.cells
    requires Trie.Valid(Trie.MakeBranch(p1, Abs(h.cells, n1), p2, Abs(h.cells, n2)))
    modifies h
    ensures h.Valid() && y !in old(h.cells) && y in h.cells
    ensures Agree(old(h.cells), h.cells, old(h.cells).Keys) && h.cells.Keys == old(h.cells).Keys + {y}
    ensures h.count == old(h.count)[y := 1]
    ensures h.ext == Add(Sub(Sub(old(h.ext), n1), n2), y)
    ensures Abs(h.cells, y) == Trie.MakeBranch(p1, old(Abs(h.cells, n1)), p2, old(Abs(h.cells, n2)))
    ensures h.cells[y].BranchCell? && h.cells[y].mask == MakeMask(p1, p2)
    ensures h.cells[y].prefix == MakePrefix(p1, h.cells[y].mask)
    ensures Child(h.cells[y], Left(p1, h.cells[y].mask)) == n1 && Child(h.cells[y], !Left(p1, h.cells[y].mask)) == n2
  {
    var m := MakeMask(p1, p2);
    var p := MakePrefix(p1, m);
    if Left(p1, m) {
      y := h.NewBranch(p, m, n1, n2);
    } else {
      y := h.NewBranch(p, m, n2, n1);
      SubSwap(old(h.ext), n1, n2);
    }
    AbsExtend(old(h.cells), y, h.cells[y], n1);
    AbsExtend(old(h.cells), y, h.cells[y], n2);
  }

  /** Handle `y` points to a leaf for `k` and `v` that `c0` did not hold. */
  ghost predicate NewLeafAt<V>(c0: map<Ref, Cell<V>>, c1: map<Ref, Cell<V>>, y: Ref, k: Key, v: V) {
    y !in c0 && y in c1 && c1[y] == LeafCell(k, v)
  }

  /** `insert_not_mem` (and the key-mismatch case of `leaf::insert_shared`):
      a new leaf for the key and a copy of the handle to `x`, under a new
      branch. */
  method InsertNotMem<V>(h: NodeHeap<V>, x: Ref, k: Key, v: V, q: Word) returns (y: Ref)
    requires h.Valid() && x in h.cells && h.count[x] > 0
    requires q == CellHead(h.cells[x]).prefix && k.bits != q
    requires Trie.Valid(Trie.MakeBranch(k.bits, Leaf(k, v), q, Abs(h.cells, x)))
    modifies h
    ensures h.Valid() && y in h.cells && h.ext == Add(old(h.ext), y)
    ensures Abs(h.cells, y) == Trie.MakeBranch(k.bits, Leaf(k, v), q, old(Abs(h.cells, x)))
    ensures Agree(old(h.cells), h.cells, old(h.cells).Keys)
    ensures CountsAbove(old(h.cells), old(h.count), h.count, x)
    ensures y !in old(h.cells) && h.cells[y].BranchCell?
    ensures Child(h.cells[y], !Left(k.bits, h.cells[y].mask)) == x
    ensures NewLeafAt(old(h.cells), h.cells, Child(h.cells[y], Left(k.bits, h.cells[y].mask)), k, v)
  {
    var leaf := h.NewLeaf(k, v);
    AbsExtend(old(h.cells), leaf, h.cells[leaf], x);
    h.Copy(x);
    PushTwo(old(h.ext), leaf, x);
    y := MakeBranch(h, k.bits, leaf, q, x);
    BelowIrrefl(Height(old(h.cells)[x]));
  }

  /** `leaf::insert_shared`, which `leaf::insert_unique` calls: an equal key
      gives back a copy of the handle and the stored value; another key
      is split off beside the leaf. */
  method LeafInsert<V>(h: NodeHeap<V>, x: Ref, k: Key, v: V) returns (y: Ref, value: V, inserted: bool)
    requires h.Valid() && x in h.cells && h.count[x] > 0 && h.cells[x].LeafCell?
    modifies h
    ensures h.Valid() && y in h.cells && h.ext == Add(old(h.ext), y)
    ensures InsertResult(Abs(h.cells, y), value, inserted) == Trie.Insert(old(Abs(h.cells, x)), k, v)
    ensures !inserted <==> y == x
    ensures inserted ==> y !in old(h.cells)
    ensures Agree(old(h.cells), h.cells, old(h.cells).Keys)
    ensures CountsAbove(old(h.cells), old(h.count), h.count, x)
  {
    var LeafCell(key, stored) := h.cells[x];
    if k == key {
      h.Copy(x);
      BelowIrrefl(Height(old(h.cells)[x]));
      y, value, inserted := x, stored, false;
    } else {
      InsertValid(Abs(h.cells, x), k, v);
      y := InsertNotMem(h, x, k, v, key.bits);
      value, inserted := v, true;
    }
  }

  /** `insert_shared`: the path to `x` is shared, so nothing is changed in
      place; a branch copies the path down to the key's position. */
  method InsertShared<V>(h: NodeHeap<V>, x: Ref, k: Key, v: V) returns (y: Ref, value: V, inserted: bool)
    requires h.Valid() && x in h.cells && h.count[x] > 0
    modifies h
    ensures h.Valid() && y in h.cells && h.ext == Add(old(h.ext), y)
    ensures InsertResult(Abs(h.cells, y), value, inserted) == Trie.Insert(old(Abs(h.cells, x)), k, v)
    ensures Agree(old(h.cells), h.cells, old(h.cells).Keys)
    ensures CountsAbove(old(h.cells), old(h.count), h.count, x)
    decreases Depth(h.cells, x), 1
  {
    match h.cells[x]
    case LeafCell(_, _) =>
      y, value, inserted := LeafInsert(h, x, k, v);
    case BranchCell(p, m, _, _) =>
      if NotMem(k.bits, p, m) {
        assert CellOk(h.cells, x);
        NotMemDiffers(k.bits, p, m);
        InsertValid(Abs(h.cells, x), k, v);
        y := InsertNotMem(h, x, k, v, p);
        value, inserted := v, true;
      } else {
        y, value, inserted := InsertSideShared(h, x, Left(k.bits, m), k, v);
      }
  }

  /** `insert_left_shared` and `insert_right_shared`: the key goes into
      the child on side `left`, and a new branch takes the new child and a
      copy of the handle to the other one. */
  method InsertSideShared<V>(h: NodeHeap<V>, x: Ref, left: bool, k: Key, v: V) returns (y: Ref, value: V, inserted: bool)
    requires h.Valid() && x in h.cells && h.count[x] > 0 && h.cells[x].BranchCell?
    requires !NotMem(k.bits, h.cells[x].prefix, h.cells[x].mask) && Left(k.bits, h.cells[x].mask) == left
    modifies h
    ensures h.Valid() && y in h.cells && h.ext == Add(old(h.ext), y)
    ensures InsertResult(Abs(h.cells, y), value, inserted) == Trie.Insert(old(Abs(h.cells, x)), k, v)
    ensures Agree(old(h.cells), h.cells, old(h.cells).Keys)
    ensures CountsAbove(old(h.cells), old(h.count), h.count, x)
    ensures y !in old(h.cells) && SameSibling(old(h.cells)[x], h.cells[y], left)
    decreases Depth(h.cells, x), 0
  {
    var p, m := h.cells[x].prefix, h.cells[x].mask;
    var c, s := Child(h.cells[x], left), Child(h.cells[x], !left);
    ChildStep(h.cells, x, c);
    ChildStep(h.cells, x, s);
    SideSteps(h.cells, x, left, k, v);
    ChildLive(h.cells, h.count, h.next, h.ext, x, c);
    var n;
    n, value, inserted := InsertShared(h, c, k, v);
    AboveTrans(old(h.cells), old(h.count), h.count, c, x);
    AbsFrame(old(h.cells), h.cells, s);
    ghost var k1 := h.count;
    AddHas(old(h.ext), n, n);
    ghost var c1 := h.cells;
    y := NewSide(h, x, left, n);
    SubAdd(old(h.ext), n);
    AboveCompose(old(h.cells), c1, old(h.count), k1, h.count, x);
  }

  /** `make_shared<branch>(fPrefix, fMask, std::move(left), fRight)` and
      its mirror image: a new branch with the prefix and mask of branch
      `x`, taking over the outside handle `n` on side `left` and a copy
      of the other child handle of `x`. */
  method NewSide<V>(h: NodeHeap<V>, x: Ref, left: bool, n: Ref) returns (y: Ref)
    requires h.Valid() && x in h.cells && h.count[x] > 0 && h.cells[x].BranchCell?
    requires Child(h.cells[x], !left) in h.cells
    requires Has(h.ext, n) && n in h.cells
    requires EdgeOk(h.cells[x].prefix, h.cells[x].mask, CellHead(h.cells[n]), left)
    modifies h
    ensures h.Valid() && y !in old(h.cells) && y in h.cells
    ensures h.ext == Add(Sub(old(h.ext), n), y)
    ensures Agree(old(h.cells), h.cells, old(h.cells).Keys)
    ensures CountsAbove(old(h.cells), old(h.count), h.count, x)
    ensures Abs(h.cells, y) == Join(h.cells[x].prefix, h.cells[x].mask, left,
                                    old(Abs(h.cells, n)), old(Abs(h.cells, Child(h.cells[x], !left))))
    ensures h.cells[y] == WithChild(old(h.cells)[x], left, n)
  {
    var p, m := h.cells[x].prefix, h.cells[x].mask;
    var s := Child(h.cells[x], !left);
    assert CellOk(h.cells, x);
    ChildLive(h.cells, h.count, h.next, h.ext, x, s);
    ChildBelow(h.cells, x, s);
    BelowAsym(Height(h.cells[s]), Height(h.cells[x]));
    h.Copy(s);
    AboveUpdate(old(h.cells), old(h.count), old(h.count), x, s, h.count[s]);
    AddHas(old(h.ext), s, n);
    AddHas(old(h.ext), s, s);
    ghost var c1, k1 := h.cells, h.count;
    if left {
      y := h.NewBranch(p, m, n, s);
      SubSwap(Add(old(h.ext), s), n, s);
    } else {
      y := h.NewBranch(p, m, s, n);
    }
    SubAdd(old(h.ext), s);
    AboveUpdate(old(h.cells), old(h.count), k1, x, y, 1);
    AbsExtend(c1, y, h.cells[y], n);
    AbsExtend(c1, y, h.cells[y], s);
  }

  /** `fLeft = std::move(left)` and `fRight = std::move(right)`: an
      outside handle moves into a child handle of branch `x`, whose old
      target is released.  The branch then stands for the trie with the
      new child on that side. */
  method Relink<V>(h: NodeHeap<V>, x: Ref, left: bool, n: Ref)
    requires h.Valid() && x in h.cells && h.count[x] > 0 && h.cells[x].BranchCell?
    requires Child(h.cells[x], left) in h.cells && Child(h.cells[x], !left) in h.cells
    requires Has(h.ext, n) && n in h.cells
    requires EdgeOk(h.cells[x].prefix, h.cells[x].mask, CellHead(h.cells[n]), left)
    modifies h
    ensures h.Valid() && h.ext == Sub(old(h.ext), n)
    ensures h.cells == old(h.cells)[x := WithChild(old(h.cells)[x], left, n)]
    ensures Abs(h.cells, x) == Join(old(h.cells)[x].prefix, old(h.cells)[x].mask, left,
                                    old(Abs(h.cells, n)), old(Abs(h.cells, Child(h.cells[x], !left))))
    ensures forall z | z in old(h.count) && z !in old(Reach(h.cells, Child(h.cells[x], left)))
      :: z in h.count && h.count[z] == old(h.count)[z]
    ensures h.count[x] == old(h.count)[x]
  {
    var s := Child(h.cells[x], !left);
    assert CellOk(h.cells, x);
    ChildStep(h.cells, x, Child(h.cells[x], left));
    ChildStep(h.cells, x, s);
    EdgeNotReaching(h.cells, x, left, n);
    h.SetChild(x, left, n);
    AbsFrame(old(h.cells), h.cells, n);
    AbsFrame(old(h.cells), h.cells, s);
  }

  /** `insert_unique`: a node owned exclusively through the handle may be
      changed in place; the first shared node on the path is copied as
      `insert_shared` does. */
  method InsertUnique<V>(h: NodeHeap<V>, x: Ref, k: Key, v: V) returns (y: Ref, value: V, inserted: bool)
    requires h.Valid() && x in h.cells && h.count[x] > 0
    modifies h
    ensures h.Valid() && y in h.cells && h.ext == Add(old(h.ext), y)
    ensures InsertResult(Abs(h.cells, y), value, inserted) == Trie.Insert(old(Abs(h.cells, x)), k, v)
    ensures Agree(old(h.cells), h.cells, old(h.cells).Keys - old(Owned(h.cells, h.count, x)))
    ensures HeadsKept(old(h.cells), h.cells)
    ensures CountsAbove(old(h.cells), old(h.count), h.count, x)
    decreases Depth(h.cells, x), 1
  {
    match h.cells[x]
    case LeafCell(_, _) =>
      y, value, inserted := LeafInsert(h, x, k, v);
      AgreeHeads(old(h.cells), h.cells);
    case BranchCell(p, m, _, _) =>
      if NotMem(k.bits, p, m) {
        assert CellOk(h.cells, x);
        NotMemDiffers(k.bits, p, m);
        InsertValid(Abs(h.cells, x), k, v);
        y := InsertNotMem(h, x, k, v, p);
        value, inserted := v, true;
        AgreeHeads(old(h.cells), h.cells);
      } else if h.IsUnique(Some(x)) {
        y, value, inserted := InsertSideUnique(h, x, Left(k.bits, m), k, v);
      } else {
        y, value, inserted := InsertSideShared(h, x, Left(k.bits, m), k, v);
        AgreeHeads(old(h.cells), h.cells);
      }
  }

  /** `insert_left_unique` and `insert_right_unique`: the branch is owned
      exclusively, so the key goes into the child on side `left` in place
      and the new child handle replaces the old one. */
  method InsertSideUnique<V>(h: NodeHeap<V>, x: Ref, left: bool, k: Key, v: V) returns (y: Ref, value: V, inserted: bool)
    requires h.Valid() && x in h.cells && h.count[x] == 1 && h.cells[x].BranchCell?
    requires !NotMem(k.bits, h.cells[x].prefix, h.cells[x].mask) && Left(k.bits, h.cells[x].mask) == left
    modifies h
    ensures h.Valid() && y == x && y in h.cells && h.ext == Add(old(h.ext), y)
    ensures SameSibling(old(h.cells)[x], h.cells[x], left)
    ensures InsertResult(Abs(h.cells, y), value, inserted) == Trie.Insert(old(Abs(h.cells, x)), k, v)
    ensures Agree(old(h.cells), h.cells, old(h.cells).Keys - old(Owned(h.cells, h.count, x)))
    ensures HeadsKept(old(h.cells), h.cells)
    ensures CountsAbove(old(h.cells), old(h.count), h.count, x)
    decreases Depth(h.cells, x), 0
  {
    var c, s := Child(h.cells[x], left), Child(h.cells[x], !left);
    ChildStep(h.cells, x, c);
    SideSteps(h.cells, x, left, k, v);
    SiblingIsolation(h.cells, h.count, h.next, h.ext, x, left);
    OwnedReached(h.cells, h.count, c);
    OwnedSide(h.cells, h.count, x, left);
    ChildLive(h.cells, h.count, h.next, h.ext, x, c);
    var n;
    n, value, inserted := InsertUnique(h, c, k, v);
    AboveTrans(old(h.cells), old(h.count), h.count, c, x);
    AgreeOutside(old(h.cells), h.cells, old(Owned(h.cells, h.count, c)), old(Reach(h.cells, s)));
    AbsFrame(old(h.cells), h.cells, s);
    ghost var c1, k1 := h.cells, h.count;
    AddHas(old(h.ext), n, n);
    Relink(h, x, left, n);
    SubAdd(old(h.ext), n);
    AboveRelease(old(h.cells), old(h.count), c1, k1, h.count, c, x);
    AgreeRewrite(old(h.cells), c1, old(Owned(h.cells, h.count, x)), old(Owned(h.cells, h.count, c)), x, h.cells[x]);
    ghost var k2 := h.count;
    h.Copy(x);
    BelowIrrefl(Height(old(h.cells)[x]));
    AboveUpdate(old(h.cells), old(h.count), k2, x, x, h.count[x]);
    y := x;
  }

  /** `leaf::erase_shared`, which `leaf::erase_unique` calls: a matching
      key gives a null handle and one removal, any other key a copy of the
      handle and none. */
  method LeafErase<V>(h: NodeHeap<V>, x: Ref, k: Key) returns (y: Option<Ref>, removed: nat)
    requires h.Valid() && x in h.cells && h.count[x] > 0 && h.cells[x].LeafCell?
    modifies h
    ensures h.Valid() && (y.Some? ==> y.value in h.cells) && h.ext == AddOpt(old(h.ext), y)
    ensures EraseResult(AbsOpt(h.cells, y), removed) == Trie.Erase(old(Abs(h.cells, x)), k)
    ensures removed == 0 <==> y == Some(x)
    ensures Agree(old(h.cells), h.cells, old(h.cells).Keys)
    ensures CountsAbove(old(h.cells), old(h.count), h.count, x)
  {
    if k == h.cells[x].key {
      y, removed := None, 1;
    } else {
      h.Copy(x);
      BelowIrrefl(Height(old(h.cells)[x]));
      y, removed := Some(x), 0;
    }
  }

  /** `erase_not_mem`: a key outside the branch's prefix removes nothing;
      the result is a copy of the handle. */
  method EraseNotMem<V>(h: NodeHeap<V>, x: Ref, k: Key) returns (y: Option<Ref>, removed: nat)
    requires h.Valid() && x in h.cells && h.count[x] > 0 && h.cells[x].BranchCell?
    requires NotMem(k.bits, h.cells[x].prefix, h.cells[x].mask)
    modifies h
    ensures h.Valid() && y == Some(x) && x in h.cells && h.ext == AddOpt(old(h.ext), y)
    ensures EraseResult(AbsOpt(h.cells, y), removed) == Trie.Erase(old(Abs(h.cells, x)), k)
    ensures Agree(old(h.cells), h.cells, old(h.cells).Keys)
    ensures CountsAbove(old(h.cells), old(h.count), h.count, x)
  {
    h.Copy(x);
    BelowIrrefl(Height(old(h.cells)[x]));
    y, removed := Some(x), 0;
  }

  /** `erase_shared`: the path to `x` is shared, so nothing is changed in
      place. */
  method EraseShared<V>(h: NodeHeap<V>, x: Ref, k: Key) returns (y: Option<Ref>, removed: nat)
    requires h.Valid() && x in h.cells && h.count[x] > 0
    modifies h
    ensures h.Valid() && (y.Some? ==> y.value in h.cells) && h.ext == AddOpt(old(h.ext), y)
    ensures EraseResult(AbsOpt(h.cells, y), removed) == Trie.Erase(old(Abs(h.cells, x)), k)
    ensures Agree(old(h.cells), h.cells, old(h.cells).Keys)
    ensures CountsAbove(old(h.cells), old(h.count), h.count, x)
    decreases Depth(h.cells, x), 1
  {
    match h.cells[x]
    case LeafCell(_, _) =>
      y, removed := LeafErase(h, x, k);
    case BranchCell(p, m, _, _) =>
      if NotMem(k.bits, p, m) {
        y, removed := EraseNotMem(h, x, k);
      } else {
        y, removed := EraseSideShared(h, x, Left(k.bits, m), k);
      }
  }

  /** `erase_left_shared` and `erase_right_shared`: the key is erased from
      the child on side `left`; a remaining child goes under a new branch
      beside a copy of the handle to the other child, and an emptied child
      leaves that copy alone. */
  method EraseSideShared<V>(h: NodeHeap<V>, x: Ref, left: bool, k: Key) returns (y: Option<Ref>, removed: nat)
    requires h.Valid() && x in h.cells && h.count[x] > 0 && h.cells[x].BranchCell?
    requires !NotMem(k.bits, h.cells[x].prefix, h.cells[x].mask) && Left(k.bits, h.cells[x].mask) == left
    modifies h
    ensures h.Valid() && (y.Some? ==> y.value in h.cells) && h.ext == AddOpt(old(h.ext), y)
    ensures EraseResult(AbsOpt(h.cells, y), removed) == Trie.Erase(old(Abs(h.cells, x)), k)
    ensures Agree(old(h.cells), h.cells, old(h.cells).Keys)
    ensures CountsAbove(old(h.cells), old(h.count), h.count, x)
    ensures y == Some(Child(old(h.cells)[x], !left))
         || (y.Some? && y.value !in old(h.cells) && SameSibling(old(h.cells)[x], h.cells[y.value], left))
    decreases Depth(h.cells, x), 0
  {
    var p, m := h.cells[x].prefix, h.cells[x].mask;
    var c, s := Child(h.cells[x], left), Child(h.cells[x], !left);
    ChildStep(h.cells, x, c);
    ChildStep(h.cells, x, s);
    EraseSteps(h.cells, x, left, k);
    ChildLive(h.cells, h.count, h.next, h.ext, x, c);
    var n;
    n, removed := EraseShared(h, c, k);
    AboveTrans(old(h.cells), old(h.count), h.count, c, x);
    AbsFrame(old(h.cells), h.cells, s);
    ghost var k1 := h.count;
    if n.Some? {
      AddHas(old(h.ext), n.value, n.value);
      ghost var c1 := h.cells;
      var b := NewSide(h, x, left, n.value);
      SubAdd(old(h.ext), n.value);
      AboveCompose(old(h.cells), c1, old(h.count), k1, h.count, x);
      y := Some(b);
    } else {
      ChildLive(h.cells, h.count, h.next, h.ext, x, s);
      h.Copy(s);
      AboveUpdate(old(h.cells), old(h.count), k1, x, s, h.count[s]);
      y := Some(s);
    }
  }

  /** `erase_unique`: a node owned exclusively through the handle may be
      changed in place; the first shared node on the path is handled as
      `erase_shared` does. */
  method EraseUnique<V>(h: NodeHeap<V>, x: Ref, k: Key) returns (y: Option<Ref>, removed: nat)
    requires h.Valid() && x in h.cells && h.count[x] > 0
    modifies h
    ensures h.Valid() && (y.Some? ==> y.value in h.cells) && h.ext == AddOpt(old(h.ext), y)
    ensures EraseResult(AbsOpt(h.cells, y), removed) == Trie.Erase(old(Abs(h.cells, x)), k)
    ensures Agree(old(h.cells), h.cells, old(h.cells).Keys - old(Owned(h.cells, h.count, x)))
    ensures HeadsKept(old(h.cells), h.cells)
    ensures CountsAbove(old(h.cells), old(h.count), h.count, x)
    decreases Depth(h.cells, x), 1
  {
    match h.cells[x]
    case LeafCell(_, _) =>
      y, removed := LeafErase(h, x, k);
      AgreeHeads(old(h.cells), h.cells);
    case BranchCell(p, m, _, _) =>
      if NotMem(k.bits, p, m) {
        y, removed := EraseNotMem(h, x, k);
        AgreeHeads(old(h.cells), h.cells);
      } else if h.IsUnique(Some(x)) {
        y, removed := EraseSideUnique(h, x, Left(k.bits, m), k);
      } else {
        y, removed := EraseSideShared(h, x, Left(k.bits, m), k);
        AgreeHeads(old(h.cells), h.cells);
      }
  }

  /** `erase_left_unique` and `erase_right_unique`: the branch is owned
      exclusively, so the key is erased from the child on side `left` in
      place; a remaining child handle replaces the old one, and an emptied
      child gives way to a copy of the handle to the other child. */
  method EraseSideUnique<V>(h: NodeHeap<V>, x: Ref, left: bool, k: Key) returns (y: Option<Ref>, removed: nat)
    requires h.Valid() && x in h.cells && h.count[x] == 1 && h.cells[x].BranchCell?
    requires !NotMem(k.bits, h.cells[x].prefix, h.cells[x].mask) && Left(k.bits, h.cells[x].mask) == left
    modifies h
    ensures h.Valid() && (y.Some? ==> y.value in h.cells) && h.ext == AddOpt(old(h.ext), y)
    ensures EraseResult(AbsOpt(h.cells, y), removed) == Trie.Erase(old(Abs(h.cells, x)), k)
    ensures Agree(old(h.cells), h.cells, old(h.cells).Keys - old(Owned(h.cells, h.count, x)))
    ensures HeadsKept(old(h.cells), h.cells)
    ensures CountsAbove(old(h.cells), old(h.count), h.count, x)
    ensures y == Some(Child(old(h.cells)[x], !left))
         || (y == Some(x) && SameSibling(old(h.cells)[x], h.cells[x], left))
    decreases Depth(h.cells, x), 0
  {
    var c, s := Child(h.cells[x], left), Child(h.cells[x], !left);
    ChildStep(h.cells, x, c);
    EraseSteps(h.cells, x, left, k);
    SiblingIsolation(h.cells, h.count, h.next, h.ext, x, left);
    OwnedReached(h.cells, h.count, c);
    OwnedSide(h.cells, h.count, x, left);
    ChildLive(h.cells, h.count, h.next, h.ext, x, c);
    var n;
    n, removed := EraseUnique(h, c, k);
    AboveTrans(old(h.cells), old(h.count), h.count, c, x);
    AgreeOutside(old(h.cells), h.cells, old(Owned(h.cells, h.count, c)), old(Reach(h.cells, s)));
    AbsFrame(old(h.cells), h.cells, s);
    if n.Some? {
      ghost var c1, k1 := h.cells, h.count;
      AddHas(old(h.ext), n.value, n.value);
      Relink(h, x, left, n.value);
      assert SameSibling(old(h.cells)[x], h.cells[x], left);
      SubAdd(old(h.ext), n.value);
      AboveRelease(old(h.cells), old(h.count), c1, k1, h.count, c, x);
      AgreeRewrite(old(h.cells), c1, old(Owned(h.cells, h.count, x)), old(Owned(h.cells, h.count, c)), x, h.cells[x]);
      ghost var k2 := h.count;
      h.Copy(x);
      BelowIrrefl(Height(old(h.cells)[x]));
      AboveUpdate(old(h.cells), old(h.count), k2, x, x, h.count[x]);
      y := Some(x);
    } else {
      ChildLive(h.cells, h.count, h.next, h.ext, x, s);
      ghost var k1 := h.count;
      h.Copy(s);
      AboveUpdate(old(h.cells), old(h.count), k1, x, s, h.count[s]);
      y := Some(s);
    }
  }

  /** `find` (`find_impl` of `branch` and of `leaf`): the walk from `x`
      along the key's bits finds the value the trie `x` stands for holds
      under `k`, and nothing for a key it lacks.  Nothing is changed and no
      count is touched. */
  function FindAt<V>(h: NodeHeap<V>, x: Ref, k: Key): (r: Option<V>)
    reads h
    requires h.Valid() && x in h.cells
    ensures r == if k in Contents(Abs(h.cells, x)) then Some(Contents(Abs(h.cells, x))[k]) else None
    decreases Depth(h.cells, x)
  {
    FindCorrect(Abs(h.cells, x), k);
    match h.cells[x]
    case LeafCell(key, v) => if k != key then None else Some(v)
    case BranchCell(p, m, l, r) =>
      ChildStep(h.cells, x, l);
      ChildStep(h.cells, x, r);
      FindCorrect(Abs(h.cells, l), k);
      FindCorrect(Abs(h.cells, r), k);
      if NotMem(k.bits, p, m) then None
      else if Left(k.bits, m) then FindAt(h, l, k)
      else FindAt(h, r, k)
  }

  // ---------------------------------------------------------------------
  // Persistence: what the other handles see

  /** Every handle in `e` stands for the same trie in `c1` as in `c0`. */
  ghost predicate Persists<V>(c0: map<Ref, Cell<V>>, c1: map<Ref, Cell<V>>, e: Handles) {
    Shaped(c0) && Shaped(c1) &&
    forall o | Has(e, o) :: o in c0 && o in c1 && Abs(c1, o) == Abs(c0, o)
  }

  /** An operation that rewrote only what the outside handle `r` owned
      exclusively leaves every other outside handle's trie unchanged. */
  lemma PersistsOutside<V>(c0: map<Ref, Cell<V>>, k0: map<Ref, nat>, n0: nat, e0: Handles, r: Ref,
                           c1: map<Ref, Cell<V>>)
    requires HeapOk(c0, k0, n0, e0) && Has(e0, r) && r in c0 && Shaped(c1)
    requires Agree(c0, c1, c0.Keys - Owned(c0, k0, r))
    ensures Persists(c0, c1, Sub(e0, r))
  {
    forall o | Has(Sub(e0, r), o)
      ensures o in c0 && o in c1 && Abs(c1, o) == Abs(c0, o)
    {
      RootIsolation(c0, k0, n0, e0, r, o);
      AgreeOutside(c0, c1, Owned(c0, k0, r), Reach(c0, o));
      AbsFrame(c0, c1, o);
    }
  }

  /** An operation that kept every node's body leaves every outside
      handle's trie unchanged. */
  lemma PersistsAll<V>(c0: map<Ref, Cell<V>>, k0: map<Ref, nat>, n0: nat, e0: Handles, c1: map<Ref, Cell<V>>)
    requires HeapOk(c0, k0, n0, e0) && Shaped(c1) && Agree(c0, c1, c0.Keys)
    ensures Persists(c0, c1, e0)
  {
    forall o | Has(e0, o)
      ensures o in c0 && o in c1 && Abs(c1, o) == Abs(c0, o)
    {
      ExtLive(c0, k0, n0, e0, o);
      AbsFrame(c0, c1, o);
    }
  }

  /** Persistence for a set of handles carries over to a part of it. */
  lemma PersistsSub<V>(c0: map<Ref, Cell<V>>, c1: map<Ref, Cell<V>>, e: Handles, r: Ref)
    requires Persists(c0, c1, e)
    ensures Persists(c0, c1, Sub(e, r))
  {
    forall o | Has(Sub(e, r), o)
      ensures Has(e, o)
    {
      HasDef(Sub(e, r), o);
      SubDef(e, r);
      HasDef(e, o);
    }
  }
}
