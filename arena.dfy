/** The handle operations on the node arena: `make_shared` and the copy,
    move, assignment and destructor of `intrusive_shared_ptr`, with the use
    counts of `control_block`.  A method's handle parameters and results
    are outside handles (`ext`); copying one adds a handle, and taking one
    over (`std::move`) moves it without touching any count. */
module Arena {
  import opened Bits
  import opened Wrappers
  import opened Trie
  import opened Heap

  /** The outside handles `e` with an optional handle added: nothing for a
      null handle. */
  function AddOpt(e: Handles, o: Option<Ref>): Handles {
    match o
    case None => e
    case Some(x) => Add(e, x)
  }

  /** The outside handles `e` with an optional handle taken out. */
  function SubOpt(e: Handles, o: Option<Ref>): Handles {
    match o
    case None => e
    case Some(x) => Sub(e, x)
  }

  /** Replacing an outside handle `r` by the optional handle `y` (a
      container assigning a node operation's result to its root): `r` was
      still there while the operation ran, `y` is there afterwards, and
      every other outside handle is as it was. */
  lemma SwapRoot(e: Handles, r: Ref, y: Option<Ref>)
    requires Has(e, r)
    ensures Has(AddOpt(e, y), r)
    ensures y.Some? ==> Has(Sub(AddOpt(e, y), r), y.value)
    ensures SubOpt(Sub(AddOpt(e, y), r), y) == Sub(e, r)
  {
    if y.Some? {
      var z := y.value;
      AddHas(e, z, r);
      SubSwap(Add(e, z), r, z);
      SubAdd(e, z);
      if z == r {
        SubAdd(e, r);
      } else {
        SubHas(Add(e, z), r, z);
        AddHas(e, z, z);
      }
    }
  }

  /** A handle among the others is among all outside handles. */
  lemma SubOptHas(e: Handles, r: Option<Ref>, o: Ref)
    requires Has(SubOpt(e, r), o)
    ensures Has(e, o)
  {
    if r.Some? {
      HasDef(Sub(e, r.value), o);
      SubDef(e, r.value);
      HasDef(e, o);
    }
  }

  class NodeHeap<V> {
    /** The bodies of all nodes ever allocated. */
    var cells: map<Ref, Cell<V>>
    /** Each node's `fUseCount`; 0 once deleted. */
    var count: map<Ref, nat>
    /** The next free address. */
    var next: Ref
    /** The handles held outside any node. */
    ghost var ext: Handles

    ghost predicate Valid()
      reads this
    {
      HeapOk(cells, count, next, ext)
    }

    /** An arena with no nodes. */
    constructor ()
      ensures Valid() && cells == map[] && ext == NoHandles
    {
      cells, count, next, ext := map[], map[], 0, NoHandles;
      new;
      CountedDef(cells, count, next, ext);
    }

    /** `unique()`: a null handle is unique, a handle to a node is unique
        when the node's count is 1, which is when the handle owns the node
        exclusively. */
    function IsUnique(o: Option<Ref>): (r: bool)
      reads this
      requires Valid() && (o.Some? ==> o.value in cells)
      ensures r <==> o.None? || o.value in Owned(cells, count, o.value)
    {
      match o
      case None => true
      case Some(x) => count[x] == 1
    }

    /** The copy constructor: one more handle to a node that has one. */
    method Copy(x: Ref)
      requires Valid() && x in cells && count[x] > 0
      modifies this
      ensures Valid() && cells == old(cells) && next == old(next)
      ensures count == old(count)[x := old(count)[x] + 1]
      ensures ext == Add(old(ext), x)
    {
      CopyOk(cells, count, next, ext, x);
      count := Inc(count, x);
      ext := Add(ext, x);
    }

    /** The destructor of an outside handle: the last handle deletes its
        node; any other handle only lowers the count.  Only counts of nodes
        reachable from `x` change. */
    method Release(x: Ref)
      requires Valid() && Has(ext, x) && x in cells
      modifies this
      ensures Valid() && cells == old(cells) && next == old(next)
      ensures ext == Sub(old(ext), x)
      ensures old(count)[x] > 1 ==> count[x] == old(count)[x] - 1
      ensures old(count)[x] == 1 ==> count[x] == 0
      ensures forall z | z in old(count) && z !in old(Reach(cells, x)) :: z in count && count[z] == old(count)[z]
      decreases Depth(cells, x), 2
    {
      ExtLive(cells, count, next, ext, x);
      if count[x] > 1 {
        DecOk(cells, count, next, ext, x);
        count := count[x := count[x] - 1];
        ext := Sub(ext, x);
      } else {
        Free(x);
      }
    }

    /** Deleting a node whose last handle is destroyed: its count drops to
        0 and its child handles are destroyed in turn. */
    method Free(x: Ref)
      requires Valid() && Has(ext, x) && x in cells && x in count && count[x] == 1
      modifies this
      ensures Valid() && cells == old(cells) && next == old(next)
      ensures ext == Sub(old(ext), x)
      ensures count[x] == 0
      ensures forall z | z in old(count) && z !in old(Reach(cells, x)) :: z in count && count[z] == old(count)[z]
      decreases Depth(cells, x), 1
    {
      FreeOk(cells, count, next, ext, x);
      count := count[x := 0];
      ext := AddKids(Sub(ext, x), cells[x]);
      if cells[x].BranchCell? {
        PushTwo(Sub(old(ext), x), cells[x].left, cells[x].right);
        ReleaseKids(x);
      }
    }

    /** The destruction of the two child handles of a deleted branch. */
    method ReleaseKids(x: Ref)
      requires Valid() && x in cells && cells[x].BranchCell?
      requires Has(ext, cells[x].left) && Has(Sub(ext, cells[x].left), cells[x].right)
      modifies this
      ensures Valid() && cells == old(cells) && next == old(next)
      ensures ext == Sub(Sub(old(ext), cells[x].left), cells[x].right)
      ensures forall z | z in old(count) && (z == x || z !in old(Reach(cells, x))) :: z in count && count[z] == old(count)[z]
      decreases Depth(cells, x), 0
    {
      var l, r := cells[x].left, cells[x].right;
      ChildStep(cells, x, l);
      ChildStep(cells, x, r);
      Release(l);
      Release(r);
    }

    /** `make_shared<leaf>`: a new node with count 1. */
    method NewLeaf(k: Key, v: V) returns (y: Ref)
      requires Valid()
      modifies this
      ensures Valid() && y == old(next) && y !in old(cells) && next == old(next) + 1
      ensures cells == old(cells)[y := LeafCell(k, v)] && count == old(count)[y := 1]
      ensures ext == Add(old(ext), y)
    {
      LeafAllocOk(cells, count, next, ext, k, v);
      y := next;
      cells, count, next := cells[y := LeafCell(k, v)], count[y := 1], next + 1;
      ext := Add(ext, y);
    }

    /** `make_shared<branch>` taking over two handles as its children. */
    method NewBranch(p: Word, m: Word, l: Ref, r: Ref) returns (y: Ref)
      requires Valid() && Has(ext, l) && Has(ext, r) && l in cells && r in cells
      requires BranchOk(p, m, CellHead(cells[l]), CellHead(cells[r]))
      modifies this
      ensures Valid() && y == old(next) && y !in old(cells) && next == old(next) + 1
      ensures cells == old(cells)[y := BranchCell(p, m, l, r)] && count == old(count)[y := 1]
      ensures ext == Add(Sub(Sub(old(ext), l), r), y)
    {
      BranchAllocOk(cells, count, next, ext, p, m, l, r);
      y := next;
      cells, count, next := cells[y := BranchCell(p, m, l, r)], count[y := 1], next + 1;
      ext := Add(Sub(Sub(ext, l), r), y);
    }

    /** Move assignment of an outside handle to a child handle of a live
        branch (`fLeft = std::move(left)`): the handle swaps in and the
        child handle's old value is destroyed.  Only counts of nodes
        reachable from the old child change. */
    method SetChild(x: Ref, left: bool, y: Ref)
      requires Valid() && x in cells && count[x] > 0 && cells[x].BranchCell? && Child(cells[x], left) in cells
      requires Has(ext, y) && y in cells && EdgeOk(cells[x].prefix, cells[x].mask, CellHead(cells[y]), left)
      modifies this
      ensures Valid() && next == old(next)
      ensures cells == old(cells)[x := WithChild(old(cells)[x], left, y)]
      ensures ext == Sub(old(ext), y)
      ensures forall z | z in old(count) && z !in old(Reach(cells, Child(cells[x], left))) :: z in count && count[z] == old(count)[z]
    {
      var c := Child(cells[x], left);
      SetChildOk(cells, count, next, ext, x, left, y);
      cells := cells[x := WithChild(cells[x], left, y)];
      ext := Add(Sub(ext, y), c);
      ghost var c1 := cells;
      AddHas(Sub(old(ext), y), c, c);
      Release(c);
      SubAdd(Sub(old(ext), y), c);
      assert Agree(old(cells), c1, Reach(old(cells), c)) by {
        ChildStep(old(cells), x, c);
      }
      ReachFrame(old(cells), c1, c);
    }
  }
}
