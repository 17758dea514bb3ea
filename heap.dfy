/** The nodes of `SharedRadixTree` as reference-counted objects.  Every
    node (`leaf` or `branch`) is a `control_block` carrying a use count that
    the handles (`intrusive_shared_ptr`) maintain; a branch refers to its
    children through handles.  The model keeps all nodes in one arena:
    `cells` maps a node's address to its body and `count` to its use count.
    A node whose count has dropped to 0 has been deleted; its address is
    never reused.

    The ghost `ext` holds the handles that live outside nodes (a
    container's root, a temporary).  The central invariant, `HeapOk`, says
    that each count is exactly the number of handles to the node: those in
    `ext` and the child slots of live branches.  From it follow the
    copy-on-write guarantees: a node with count 1 is referenced from one
    place only, so what a handle owns exclusively (`Owned`) cannot be
    reached through any other handle. */
module Heap {
  import opened Bits
  import opened Wrappers
  import opened Trie

  /** A node's address. */
  type Ref = nat

  /** A node body: a `leaf` with its key/value pair, or a `branch` with its
      prefix, mask and the addresses its two child handles point to. */
  datatype Cell<V> =
    | LeafCell(key: Key, value: V)
    | BranchCell(prefix: Word, mask: Word, left: Ref, right: Ref)

  /** The part of a body a parent's invariant speaks about; it never changes
      once the node is built. */
  function CellHead<V>(c: Cell<V>): Head {
    match c
    case LeafCell(k, _) => Head(false, k.bits, Zero)
    case BranchCell(p, m, _, _) => Head(true, p, m)
  }

  /** The node's place in the trie's order: a branch's mask, 0 for a leaf.
      A child is always lower than its parent, so no node reaches itself. */
  function Height<V>(c: Cell<V>): Word {
    CellHead(c).mask
  }

  /** Node `x` is well formed: a branch's children exist and the branch's
      prefix and mask fit their heads. */
  predicate CellOk<V>(cells: map<Ref, Cell<V>>, x: Ref)
    requires x in cells
  {
    match cells[x]
    case LeafCell(_, _) => true
    case BranchCell(p, m, l, r) =>
      l in cells && r in cells && BranchOk(p, m, CellHead(cells[l]), CellHead(cells[r]))
  }

  /** Every node is well formed. */
  predicate Shaped<V>(cells: map<Ref, Cell<V>>) {
    forall x {:trigger CellOk(cells, x)} | x in cells :: CellOk(cells, x)
  }

  /** How many of the child handles in body `c` point to `z`. */
  function Slots<V>(c: Cell<V>, z: Ref): nat {
    match c
    case LeafCell(_, _) => 0
    case BranchCell(_, _, l, r) => (if l == z then 1 else 0) + (if r == z then 1 else 0)
  }

  /** The body of node `y` if it is live. */
  ghost function LiveBody<V>(cells: map<Ref, Cell<V>>, count: map<Ref, nat>, y: Ref): Option<Cell<V>> {
    if y in cells && y in count && count[y] > 0 then Some(cells[y]) else None
  }

  /** How many of node `y`'s child handles point to `z`, if `y` is live. */
  ghost function Part<V>(cells: map<Ref, Cell<V>>, count: map<Ref, nat>, y: Ref, z: Ref): nat {
    match LiveBody(cells, count, y)
    case None => 0
    case Some(c) => Slots(c, z)
  }

  /** How many child handles of the live nodes at addresses below `n` point
      to `z`. */
  ghost function InboundUpTo<V>(cells: map<Ref, Cell<V>>, count: map<Ref, nat>, n: nat, z: Ref): nat {
    if n == 0 then 0 else InboundUpTo(cells, count, n - 1, z) + Part(cells, count, n - 1, z)
  }

  // Not recursion: `sealed` adds one step the verifier does not take on its own; `InboundStep` unfolds `Inbound`.
  ghost function InboundSeal<V>(cells: map<Ref, Cell<V>>, count: map<Ref, nat>, n: nat, z: Ref, sealed: bool): nat {
    if !sealed then InboundUpTo(cells, count, n, z) else InboundSeal(cells, count, n, z, false)
  }

  /** Sealed like `Counted`: only `InboundStep` looks inside. */
  ghost function Inbound<V>(cells: map<Ref, Cell<V>>, count: map<Ref, nat>, n: nat, z: Ref): nat {
    InboundSeal(cells, count, n, z, true)
  }

  lemma InboundStep<V>(cells: map<Ref, Cell<V>>, count: map<Ref, nat>, n: nat, z: Ref)
    ensures Inbound(cells, count, n, z)
         == if n == 0 then 0 else Inbound(cells, count, n - 1, z) + Part(cells, count, n - 1, z)
  {
    assert InboundSeal(cells, count, n, z, true) == InboundSeal(cells, count, n, z, false);
    if n > 0 {
      assert InboundSeal(cells, count, n - 1, z, true) == InboundSeal(cells, count, n - 1, z, false);
    }
  }

  /** The outside handles: a multiset of addresses, one entry per handle.
      Wrapped and sealed like the bit tests, so that the methods on the
      arena see only the operations below and the lemmas about them. */
  datatype Handles = Handles(ms: multiset<Ref>)

  /** No outside handles. */
  const NoHandles: Handles := Handles(multiset{})

  // Not recursion: `sealed` adds one step the verifier does not take on its own; `HasDef` unfolds `Has`.
  predicate HasSeal(e: Handles, x: Ref, sealed: bool) {
    if !sealed then x in e.ms else HasSeal(e, x, false)
  }

  /** Some outside handle points to `x`. */
  predicate Has(e: Handles, x: Ref) {
    HasSeal(e, x, true)
  }

  // Not recursion: `sealed` adds one step the verifier does not take on its own; `AddDef` unfolds `Add`.
  function AddSeal(e: Handles, x: Ref, sealed: bool): Handles {
    if !sealed then Handles(e.ms + multiset{x}) else AddSeal(e, x, false)
  }

  /** One more outside handle to `x`. */
  function Add(e: Handles, x: Ref): Handles {
    AddSeal(e, x, true)
  }

  // Not recursion: `sealed` adds one step the verifier does not take on its own; `SubDef` unfolds `Sub`.
  function SubSeal(e: Handles, x: Ref, sealed: bool): Handles {
    if !sealed then Handles(e.ms - multiset{x}) else SubSeal(e, x, false)
  }

  /** One outside handle to `x` fewer. */
  function Sub(e: Handles, x: Ref): Handles {
    SubSeal(e, x, true)
  }

  lemma HasDef(e: Handles, x: Ref)
    ensures Has(e, x) == (x in e.ms)
  {
    assert HasSeal(e, x, true) == HasSeal(e, x, false);
  }

  lemma AddDef(e: Handles, x: Ref)
    ensures Add(e, x) == Handles(e.ms + multiset{x})
  {
    assert AddSeal(e, x, true) == AddSeal(e, x, false);
  }

  lemma SubDef(e: Handles, x: Ref)
    ensures Sub(e, x) == Handles(e.ms - multiset{x})
  {
    assert SubSeal(e, x, true) == SubSeal(e, x, false);
  }

  /** An added handle is there... */
  lemma AddHas(e: Handles, x: Ref, z: Ref)
    ensures Has(Add(e, x), z) <==> z == x || Has(e, z)
  {
    AddDef(e, x);
    HasDef(e, z);
    HasDef(Add(e, x), z);
  }

  /** ...and removing one handle to `x` leaves the handles to other
      nodes. */
  lemma SubHas(e: Handles, x: Ref, z: Ref)
    requires z != x
    ensures Has(Sub(e, x), z) <==> Has(e, z)
  {
    SubDef(e, x);
    HasDef(e, z);
    HasDef(Sub(e, x), z);
  }

  /** Removing a handle just added undoes the addition. */
  lemma SubAdd(e: Handles, x: Ref)
    ensures Sub(Add(e, x), x) == e
  {
    AddDef(e, x);
    SubDef(Add(e, x), x);
    assert e.ms + multiset{x} - multiset{x} == e.ms;
  }

  /** Two handles removed in either order. */
  lemma SubSwap(e: Handles, a: Ref, b: Ref)
    ensures Sub(Sub(e, a), b) == Sub(Sub(e, b), a)
  {
    SubDef(e, a);
    SubDef(e, b);
    SubDef(Sub(e, a), b);
    SubDef(Sub(e, b), a);
    assert e.ms - multiset{a} - multiset{b} == e.ms - multiset{b} - multiset{a};
  }

  /** Two handles added and then taken over, in either order. */
  lemma PushTwo(e: Handles, a: Ref, b: Ref)
    ensures Has(Add(Add(e, a), b), a) && Has(Add(Add(e, a), b), b)
    ensures Has(Sub(Add(Add(e, a), b), a), b)
    ensures Sub(Sub(Add(Add(e, a), b), a), b) == e
    ensures Sub(Sub(Add(Add(e, a), b), b), a) == e
  {
    var e2 := Add(Add(e, a), b);
    AddHas(e, a, a);
    AddHas(Add(e, a), b, a);
    AddHas(Add(e, a), b, b);
    AddDef(e, a);
    AddDef(Add(e, a), b);
    SubDef(e2, a);
    HasDef(Sub(e2, a), b);
    SubSwap(e2, a, b);
    SubAdd(Add(e, a), b);
    SubAdd(e, a);
  }

  /** The counting part of the arena invariant: every address in use is
      below `next`, every outside handle points to a node, and every count
      is the number of handles pointing to the node, those in `ext` and
      those held by live nodes.  Sealed like the bit tests: only
      `CountedDef` and the lemmas below look inside. */
  // Not recursion: `sealed` adds one step the verifier does not take on its own; `CountedDef` unfolds `Counted`.
  ghost predicate CountedSeal<V>(cells: map<Ref, Cell<V>>, count: map<Ref, nat>, next: nat, ext: Handles,
                                 sealed: bool)
  {
    if !sealed then
      && (forall x | x in cells :: x < next)
      && (forall x | x in ext.ms :: x in cells)
      && (forall x | x in cells && x in count :: count[x] == ext.ms[x] + Inbound(cells, count, next, x))
    else CountedSeal(cells, count, next, ext, false)
  }

  ghost predicate Counted<V>(cells: map<Ref, Cell<V>>, count: map<Ref, nat>, next: nat, ext: Handles) {
    CountedSeal(cells, count, next, ext, true)
  }

  lemma CountedDef<V>(cells: map<Ref, Cell<V>>, count: map<Ref, nat>, next: nat, ext: Handles)
    ensures Counted(cells, count, next, ext)
        == (&& (forall x | x in cells :: x < next)
            && (forall x | x in ext.ms :: x in cells)
            && (forall x | x in cells && x in count :: count[x] == ext.ms[x] + Inbound(cells, count, next, x)))
  {
    assert CountedSeal(cells, count, next, ext, true) == CountedSeal(cells, count, next, ext, false);
  }

  /** The arena invariant: every node has a count and is well formed, and
      the counts are right. */
  ghost predicate HeapOk<V>(cells: map<Ref, Cell<V>>, count: map<Ref, nat>, next: nat, ext: Handles) {
    && count.Keys == cells.Keys
    && Shaped(cells)
    && Counted(cells, count, next, ext)
  }

  // ---------------------------------------------------------------------
  // Structure of well-formed arenas

  /** A child that fits a branch's mask has a lower mask (a leaf's being
      0). */
  lemma EdgeLower(p: Word, m: Word, h: Head, left: bool)
    requires IsMask(m) && EdgeOk(p, m, h, left) && (h.isBranch || h.mask == Zero)
    ensures Below(h.mask, m)
  {
    if !h.isBranch {
      MaskPositive(m);
      BelowDef(h.mask, m);
    }
  }

  /** A child is lower than its parent. */
  lemma ChildBelow<V>(cells: map<Ref, Cell<V>>, x: Ref, c: Ref)
    requires Shaped(cells) && x in cells && Slots(cells[x], c) > 0
    ensures c in cells && Below(Height(cells[c]), Height(cells[x]))
  {
    assert CellOk(cells, x);
    var BranchCell(p, m, l, r) := cells[x];
    var h := CellHead(cells[c]);
    assert EdgeOk(p, m, h, c == l);
    EdgeLower(p, m, h, c == l);
  }

  /** The same, in the order the termination of recursion over nodes uses. */
  lemma ChildLower<V>(cells: map<Ref, Cell<V>>, x: Ref, c: Ref)
    requires Shaped(cells) && x in cells && Slots(cells[x], c) > 0
    ensures c in cells && Height(cells[c]).raw < Height(cells[x]).raw
  {
    ChildBelow(cells, x, c);
    BelowDef(Height(cells[c]), Height(cells[x]));
  }

  /** The nodes reachable from `x`, `x` included. */
  ghost function Reach<V>(cells: map<Ref, Cell<V>>, x: Ref): set<Ref>
    requires Shaped(cells) && x in cells
    decreases Height(cells[x]).raw
  {
    match cells[x]
    case LeafCell(_, _) => {x}
    case BranchCell(_, _, l, r) =>
      ChildLower(cells, x, l);
      ChildLower(cells, x, r);
      {x} + Reach(cells, l) + Reach(cells, r)
  }

  /** The nodes a handle to `x` owns exclusively: `x` if its count is 1,
      and then, recursively, what its child handles own. */
  ghost function Owned<V>(cells: map<Ref, Cell<V>>, count: map<Ref, nat>, x: Ref): set<Ref>
    requires Shaped(cells) && x in cells
    decreases Height(cells[x]).raw
  {
    if x !in count || count[x] != 1 then {}
    else
      match cells[x]
      case LeafCell(_, _) => {x}
      case BranchCell(_, _, l, r) =>
        ChildLower(cells, x, l);
        ChildLower(cells, x, r);
        {x} + Owned(cells, count, l) + Owned(cells, count, r)
  }

  /** The number of branches on the longest path below `x`: the measure
      the recursive node operations decrease, in place of the width of the
      mask. */
  ghost function Depth<V>(cells: map<Ref, Cell<V>>, x: Ref): nat
    requires Shaped(cells) && x in cells
    decreases Height(cells[x]).raw
  {
    match cells[x]
    case LeafCell(_, _) => 0
    case BranchCell(_, _, l, r) =>
      ChildLower(cells, x, l);
      ChildLower(cells, x, r);
      var dl, dr := Depth(cells, l), Depth(cells, r);
      1 + (if dl < dr then dr else dl)
  }

  /** The trie node `x` stands for. */
  ghost function Abs<V>(cells: map<Ref, Cell<V>>, x: Ref): (t: Node<V>)
    requires Shaped(cells) && x in cells
    ensures Trie.Valid(t) && HeadOf(t) == CellHead(cells[x])
    decreases Height(cells[x]).raw
  {
    match cells[x]
    case LeafCell(k, v) => Leaf(k, v)
    case BranchCell(p, m, l, r) =>
      ChildLower(cells, x, l);
      ChildLower(cells, x, r);
      assert CellOk(cells, x);
      Branch(p, m, Abs(cells, l), Abs(cells, r))
  }

  /** Everything reachable from `x` exists and, but for `x`, is lower. */
  lemma {:induction false} ReachLower<V>(cells: map<Ref, Cell<V>>, x: Ref, z: Ref)
    requires Shaped(cells) && x in cells && z in Reach(cells, x)
    ensures z in cells && (z == x || Below(Height(cells[z]), Height(cells[x])))
    decreases Height(cells[x]).raw
  {
    match cells[x]
    case LeafCell(_, _) =>
    case BranchCell(_, _, l, r) =>
      if z != x {
        ChildLower(cells, x, l);
        ChildLower(cells, x, r);
        assert z in Reach(cells, l) + Reach(cells, r);
        var c := if z in Reach(cells, l) then l else r;
        ChildLower(cells, x, c);
        ChildBelow(cells, x, c);
        ReachLower(cells, c, z);
        if z != c {
          BelowTrans(Height(cells[z]), Height(cells[c]), Height(cells[x]));
        }
      }
  }

  /** What a handle owns is reachable from it. */
  lemma {:induction false} OwnedReached<V>(cells: map<Ref, Cell<V>>, count: map<Ref, nat>, x: Ref)
    requires Shaped(cells) && x in cells
    ensures Owned(cells, count, x) <= Reach(cells, x)
    decreases Height(cells[x]).raw
  {
    if x in count && count[x] == 1 && cells[x].BranchCell? {
      var l, r := cells[x].left, cells[x].right;
      ChildLower(cells, x, l);
      ChildLower(cells, x, r);
      OwnedReached(cells, count, l);
      OwnedReached(cells, count, r);
    }
  }

  /** A node reachable from `x` other than `x` has a parent reachable from
      `x`. */
  lemma {:induction false} ParentInReach<V>(cells: map<Ref, Cell<V>>, x: Ref, z: Ref) returns (q: Ref)
    requires Shaped(cells) && x in cells && z in Reach(cells, x) && z != x
    ensures q in Reach(cells, x) && q in cells && Slots(cells[q], z) > 0
    decreases Height(cells[x]).raw
  {
    var l, r := cells[x].left, cells[x].right;
    ChildLower(cells, x, l);
    ChildLower(cells, x, r);
    if z == l || z == r {
      q := x;
    } else if z in Reach(cells, l) {
      q := ParentInReach(cells, l, z);
    } else {
      q := ParentInReach(cells, r, z);
    }
  }

  /** A node owned through `x` other than `x` has an owned parent. */
  lemma {:induction false} ParentInOwned<V>(cells: map<Ref, Cell<V>>, count: map<Ref, nat>, x: Ref, z: Ref)
    returns (q: Ref)
    requires Shaped(cells) && x in cells && z in Owned(cells, count, x) && z != x
    ensures q in Owned(cells, count, x) && q in cells && Slots(cells[q], z) > 0
    decreases Height(cells[x]).raw
  {
    var l, r := cells[x].left, cells[x].right;
    ChildLower(cells, x, l);
    ChildLower(cells, x, r);
    if z == l || z == r {
      q := x;
    } else if z in Owned(cells, count, l) {
      q := ParentInOwned(cells, count, l, z);
    } else {
      q := ParentInOwned(cells, count, r, z);
    }
  }

  /** The nodes of `c1` in `s` are in `c2`, with the same bodies. */
  ghost predicate Agree<V>(c1: map<Ref, Cell<V>>, c2: map<Ref, Cell<V>>, s: set<Ref>) {
    forall z | z in s && z in c1 :: z in c2 && c2[z] == c1[z]
  }

  /** The trie a node stands for depends only on the bodies reachable from
      it. */
  lemma {:induction false} AbsFrame<V>(c1: map<Ref, Cell<V>>, c2: map<Ref, Cell<V>>, x: Ref)
    requires Shaped(c1) && Shaped(c2) && x in c1
    requires Agree(c1, c2, Reach(c1, x))
    ensures x in c2 && Abs(c2, x) == Abs(c1, x)
    decreases Height(c1[x]).raw
  {
    assert x in Reach(c1, x);
    match c1[x]
    case LeafCell(_, _) =>
    case BranchCell(_, _, l, r) =>
      ChildLower(c1, x, l);
      ChildLower(c1, x, r);
      assert c2[x] == c1[x];
      AbsFrame(c1, c2, l);
      AbsFrame(c1, c2, r);
  }

  /** So do the nodes reachable from it. */
  lemma {:induction false} ReachFrame<V>(c1: map<Ref, Cell<V>>, c2: map<Ref, Cell<V>>, x: Ref)
    requires Shaped(c1) && Shaped(c2) && x in c1
    requires Agree(c1, c2, Reach(c1, x))
    ensures x in c2 && Reach(c2, x) == Reach(c1, x)
    decreases Height(c1[x]).raw
  {
    assert x in Reach(c1, x);
    match c1[x]
    case LeafCell(_, _) =>
    case BranchCell(_, _, l, r) =>
      ChildLower(c1, x, l);
      ChildLower(c1, x, r);
      assert c2[x] == c1[x];
      ReachFrame(c1, c2, l);
      ReachFrame(c1, c2, r);
  }

  /** Allocating a new node changes neither what an existing node stands
      for nor what it reaches. */
  lemma AbsExtend<V>(cells: map<Ref, Cell<V>>, y: Ref, c: Cell<V>, x: Ref)
    requires Shaped(cells) && Shaped(cells[y := c]) && y !in cells && x in cells
    ensures Abs(cells[y := c], x) == Abs(cells, x) && Reach(cells[y := c], x) == Reach(cells, x)
  {
    assert Agree(cells, cells[y := c], Reach(cells, x));
    AbsFrame(cells, cells[y := c], x);
    ReachFrame(cells, cells[y := c], x);
  }

  // ---------------------------------------------------------------------
  // Counting child handles

  /** `Inbound` depends only on what the live nodes hold. */
  lemma {:induction false} InboundSame<V>(c1: map<Ref, Cell<V>>, k1: map<Ref, nat>,
                                          c2: map<Ref, Cell<V>>, k2: map<Ref, nat>, n: nat, z: Ref)
    requires forall y: nat | y < n :: LiveBody(c1, k1, y) == LiveBody(c2, k2, y)
    ensures Inbound(c1, k1, n, z) == Inbound(c2, k2, n, z)
  {
    InboundStep(c1, k1, n, z);
    InboundStep(c2, k2, n, z);
    if n > 0 {
      InboundSame(c1, k1, c2, k2, n - 1, z);
    }
  }

  /** A change to what node `x` holds changes `Inbound` by as much. */
  lemma {:induction false} InboundSwap<V>(c1: map<Ref, Cell<V>>, k1: map<Ref, nat>,
                                          c2: map<Ref, Cell<V>>, k2: map<Ref, nat>, n: nat, x: Ref, z: Ref)
    requires x < n
    requires forall y: nat | y < n && y != x :: LiveBody(c1, k1, y) == LiveBody(c2, k2, y)
    ensures Inbound(c2, k2, n, z) + Part(c1, k1, x, z) == Inbound(c1, k1, n, z) + Part(c2, k2, x, z)
  {
    InboundStep(c1, k1, n, z);
    InboundStep(c2, k2, n, z);
    if x == n - 1 {
      InboundSame(c1, k1, c2, k2, n - 1, z);
    } else {
      InboundSwap(c1, k1, c2, k2, n - 1, x, z);
    }
  }

  /** `Inbound` counts the handles of every live node below `n`... */
  lemma {:induction false} InboundHas<V>(cells: map<Ref, Cell<V>>, count: map<Ref, nat>, n: nat, y: Ref, z: Ref)
    requires y < n
    ensures Part(cells, count, y, z) <= Inbound(cells, count, n, z)
  {
    InboundStep(cells, count, n, z);
    if y < n - 1 {
      InboundHas(cells, count, n - 1, y, z);
    }
  }

  /** ...and, for two different nodes, those of both. */
  lemma {:induction false} InboundHasTwo<V>(cells: map<Ref, Cell<V>>, count: map<Ref, nat>, n: nat,
                                            y1: Ref, y2: Ref, z: Ref)
    requires y1 < n && y2 < n && y1 != y2
    ensures Part(cells, count, y1, z) + Part(cells, count, y2, z) <= Inbound(cells, count, n, z)
  {
    InboundStep(cells, count, n, z);
    if y1 == n - 1 {
      InboundHas(cells, count, n - 1, y2, z);
    } else if y2 == n - 1 {
      InboundHas(cells, count, n - 1, y1, z);
    } else {
      InboundHasTwo(cells, count, n - 1, y1, y2, z);
    }
  }

  /** No live node below `n` holds a handle to `z`: `Inbound` is 0. */
  lemma {:induction false} InboundNone<V>(cells: map<Ref, Cell<V>>, count: map<Ref, nat>, n: nat, z: Ref)
    requires forall y: nat | y < n :: Part(cells, count, y, z) == 0
    ensures Inbound(cells, count, n, z) == 0
  {
    InboundStep(cells, count, n, z);
    if n > 0 {
      InboundNone(cells, count, n - 1, z);
    }
  }

  // ---------------------------------------------------------------------
  // The handle operations keep the arena invariant

  /** `count` with the count of `x` one higher. */
  function Inc(count: map<Ref, nat>, x: Ref): map<Ref, nat>
    requires x in count
  {
    count[x := count[x] + 1]
  }

  /** The child handle on side `left` of a branch body. */
  function Child<V>(c: Cell<V>, left: bool): Ref
    requires c.BranchCell?
  {
    if left then c.left else c.right
  }

  /** A branch body with the child handle on side `left` pointing to `y`. */
  function WithChild<V>(c: Cell<V>, left: bool, y: Ref): Cell<V>
    requires c.BranchCell?
  {
    if left then c.(left := y) else c.(right := y)
  }

  /** The handles a body holds, as a multiset. */
  function Kids<V>(c: Cell<V>): multiset<Ref> {
    match c
    case LeafCell(_, _) => multiset{}
    case BranchCell(_, _, l, r) => multiset{l, r}
  }

  /** The handles `e` with those body `c` holds added. */
  function AddKids<V>(e: Handles, c: Cell<V>): Handles {
    match c
    case LeafCell(_, _) => e
    case BranchCell(_, _, l, r) => Add(Add(e, l), r)
  }

  lemma AddKidsDef<V>(e: Handles, c: Cell<V>)
    ensures AddKids(e, c).ms == e.ms + Kids(c)
  {
    if c.BranchCell? {
      AddDef(e, c.left);
      AddDef(Add(e, c.left), c.right);
    }
  }

  /** An outside handle keeps its node live. */
  lemma ExtLive<V>(cells: map<Ref, Cell<V>>, count: map<Ref, nat>, next: nat, ext: Handles, x: Ref)
    requires HeapOk(cells, count, next, ext) && Has(ext, x)
    ensures x in cells && count[x] > 0
  {
    CountedDef(cells, count, next, ext);
    HasDef(ext, x);
  }

  /** A live node's children are live. */
  lemma ChildLive<V>(cells: map<Ref, Cell<V>>, count: map<Ref, nat>, next: nat, ext: Handles, x: Ref, c: Ref)
    requires HeapOk(cells, count, next, ext) && x in cells && count[x] > 0 && Slots(cells[x], c) > 0
    ensures c in cells && count[c] > 0
  {
    CountedDef(cells, count, next, ext);
    ChildBelow(cells, x, c);
    InboundHas(cells, count, next, x, c);
  }

  /** No node is its own child. */
  lemma NotOwnChild<V>(cells: map<Ref, Cell<V>>, x: Ref)
    requires Shaped(cells) && x in cells
    ensures Slots(cells[x], x) == 0
  {
    if Slots(cells[x], x) > 0 {
      ChildLower(cells, x, x);
      assert false;
    }
  }

  /** No node holds a handle to the next free address. */
  lemma FreshUnheld<V>(cells: map<Ref, Cell<V>>, count: map<Ref, nat>, next: nat)
    requires Shaped(cells) && forall x | x in cells :: x < next
    ensures Inbound(cells, count, next, next) == 0
  {
    forall y: nat | y < next
      ensures Part(cells, count, y, next) == 0
    {
      if y in cells && Slots(cells[y], next) > 0 {
        ChildBelow(cells, y, next);
      }
    }
    InboundNone(cells, count, next, next);
  }

  /** Adding a node leaves the other nodes well formed. */
  lemma ShapedExtend<V>(cells: map<Ref, Cell<V>>, y: Ref, c: Cell<V>)
    requires Shaped(cells) && y !in cells && CellOk(cells[y := c], y)
    ensures Shaped(cells[y := c])
  {
    var c2 := cells[y := c];
    forall x | x in c2
      ensures CellOk(c2, x)
    {
      if x != y {
        assert CellOk(cells, x);
      }
    }
  }

  /** Changing a body without changing its head leaves the other nodes well
      formed. */
  lemma ShapedReplace<V>(cells: map<Ref, Cell<V>>, x: Ref, c: Cell<V>)
    requires Shaped(cells) && x in cells && CellHead(c) == CellHead(cells[x]) && CellOk(cells[x := c], x)
    ensures Shaped(cells[x := c])
  {
    var c2 := cells[x := c];
    forall z | z in c2
      ensures CellOk(c2, z)
    {
      if z != x {
        assert CellOk(cells, z);
      }
    }
  }

  // One count at a time: how each handle operation changes the count of a
  // node `z` and the handles pointing to it.

  lemma CopyTally<V>(cells: map<Ref, Cell<V>>, count: map<Ref, nat>, next: nat, ext: multiset<Ref>, x: Ref, z: Ref)
    requires x in count && count[x] > 0 && z in count
    requires count[z] == ext[z] + Inbound(cells, count, next, z)
    ensures Inc(count, x)[z] == (ext + multiset{x})[z] + Inbound(cells, Inc(count, x), next, z)
  {
    InboundSame(cells, count, cells, Inc(count, x), next, z);
  }

  lemma DecTally<V>(cells: map<Ref, Cell<V>>, count: map<Ref, nat>, next: nat, ext: multiset<Ref>, x: Ref, z: Ref)
    requires x in count && count[x] > 1 && ext[x] > 0 && z in count
    requires count[z] == ext[z] + Inbound(cells, count, next, z)
    ensures count[x := count[x] - 1][z] == (ext - multiset{x})[z] + Inbound(cells, count[x := count[x] - 1], next, z)
  {
    InboundSame(cells, count, cells, count[x := count[x] - 1], next, z);
  }

  lemma FreeTally<V>(cells: map<Ref, Cell<V>>, count: map<Ref, nat>, next: nat, ext: multiset<Ref>, x: Ref, z: Ref)
    requires x in cells && x in count && count[x] == 1 && x < next && ext[x] > 0 && Slots(cells[x], x) == 0
    requires count[x] == ext[x] + Inbound(cells, count, next, x)
    requires z in count && count[z] == ext[z] + Inbound(cells, count, next, z)
    ensures count[x := 0][z] == (ext - multiset{x} + Kids(cells[x]))[z] + Inbound(cells, count[x := 0], next, z)
  {
    InboundSwap(cells, count, cells, count[x := 0], next, x, z);
    assert Kids(cells[x])[z] == Slots(cells[x], z);
  }

  lemma LeafTally<V>(cells: map<Ref, Cell<V>>, count: map<Ref, nat>, next: nat, ext: multiset<Ref>,
                     k: Key, v: V, z: Ref)
    requires z == next ==> Inbound(cells, count, next, next) == 0 && ext[next] == 0
    requires z != next ==> z in count && count[z] == ext[z] + Inbound(cells, count, next, z)
    ensures count[next := 1][z]
         == (ext + multiset{next})[z] + Inbound(cells[next := LeafCell(k, v)], count[next := 1], next + 1, z)
  {
    InboundSame(cells, count, cells[next := LeafCell(k, v)], count[next := 1], next, z);
    InboundStep(cells[next := LeafCell(k, v)], count[next := 1], next + 1, z);
  }

  lemma BranchTally<V>(cells: map<Ref, Cell<V>>, count: map<Ref, nat>, next: nat, ext: multiset<Ref>,
                       p: Word, m: Word, l: Ref, r: Ref, z: Ref)
    requires l != r && ext[l] > 0 && ext[r] > 0
    requires z == next ==> Inbound(cells, count, next, next) == 0 && ext[next] == 0
    requires z != next ==> z in count && count[z] == ext[z] + Inbound(cells, count, next, z)
    ensures count[next := 1][z]
         == (ext - multiset{l} - multiset{r} + multiset{next})[z]
            + Inbound(cells[next := BranchCell(p, m, l, r)], count[next := 1], next + 1, z)
  {
    InboundSame(cells, count, cells[next := BranchCell(p, m, l, r)], count[next := 1], next, z);
    InboundStep(cells[next := BranchCell(p, m, l, r)], count[next := 1], next + 1, z);
  }

  lemma FreeTallies<V>(cells: map<Ref, Cell<V>>, count: map<Ref, nat>, next: nat, ext: multiset<Ref>, x: Ref)
    requires x in cells && x in count && count[x] == 1 && x < next && ext[x] > 0 && Slots(cells[x], x) == 0
    requires forall z | z in cells && z in count :: count[z] == ext[z] + Inbound(cells, count, next, z)
    ensures forall z | z in cells && z in count[x := 0]
      :: count[x := 0][z] == (ext - multiset{x} + Kids(cells[x]))[z] + Inbound(cells, count[x := 0], next, z)
  {
    forall z | z in cells && z in count[x := 0]
      ensures count[x := 0][z] == (ext - multiset{x} + Kids(cells[x]))[z] + Inbound(cells, count[x := 0], next, z)
    {
      FreeTally(cells, count, next, ext, x, z);
    }
  }

  lemma KidsInCells<V>(cells: map<Ref, Cell<V>>, ext: multiset<Ref>, x: Ref)
    requires x in cells && CellOk(cells, x) && forall y | y in ext :: y in cells
    ensures forall y | y in ext - multiset{x} + Kids(cells[x]) :: y in cells
  {
  }

  lemma BranchTallies<V>(cells: map<Ref, Cell<V>>, count: map<Ref, nat>, next: nat, ext: multiset<Ref>,
                         p: Word, m: Word, l: Ref, r: Ref)
    requires l != r && ext[l] > 0 && ext[r] > 0 && next !in cells
    requires Inbound(cells, count, next, next) == 0 && ext[next] == 0
    requires forall z | z in cells && z in count :: count[z] == ext[z] + Inbound(cells, count, next, z)
    requires count.Keys == cells.Keys
    ensures forall z | z in cells[next := BranchCell(p, m, l, r)] && z in count[next := 1]
      :: count[next := 1][z] == (ext - multiset{l} - multiset{r} + multiset{next})[z]
                                + Inbound(cells[next := BranchCell(p, m, l, r)], count[next := 1], next + 1, z)
  {
    forall z | z in cells[next := BranchCell(p, m, l, r)] && z in count[next := 1]
      ensures count[next := 1][z] == (ext - multiset{l} - multiset{r} + multiset{next})[z]
                                     + Inbound(cells[next := BranchCell(p, m, l, r)], count[next := 1], next + 1, z)
    {
      BranchTally(cells, count, next, ext, p, m, l, r, z);
    }
  }

  lemma SetTally<V>(cells: map<Ref, Cell<V>>, count: map<Ref, nat>, next: nat, ext: multiset<Ref>,
                    x: Ref, left: bool, y: Ref, z: Ref)
    requires x < next && x in cells && x in count && count[x] > 0 && cells[x].BranchCell? && ext[y] > 0
    requires z in count && count[z] == ext[z] + Inbound(cells, count, next, z)
    ensures count[z]
         == (ext - multiset{y} + multiset{Child(cells[x], left)})[z]
            + Inbound(cells[x := WithChild(cells[x], left, y)], count, next, z)
  {
    InboundSwap(cells, count, cells[x := WithChild(cells[x], left, y)], count, next, x, z);
  }

  // The handle operations keep the arena invariant.

  /** Copying a handle (`intrusive_shared_ptr`'s copy constructor). */
  lemma CopyOk<V>(cells: map<Ref, Cell<V>>, count: map<Ref, nat>, next: nat, ext: Handles, x: Ref)
    requires HeapOk(cells, count, next, ext) && x in cells && count[x] > 0
    ensures HeapOk(cells, Inc(count, x), next, Add(ext, x))
  {
    AddDef(ext, x);
    CountedDef(cells, count, next, ext);
    CountedDef(cells, Inc(count, x), next, Add(ext, x));
    forall z | z in cells && z in Inc(count, x)
      ensures Inc(count, x)[z] == (ext.ms + multiset{x})[z] + Inbound(cells, Inc(count, x), next, z)
    {
      CopyTally(cells, count, next, ext.ms, x, z);
    }
  }

  /** Destroying a handle to a node with other handles. */
  lemma DecOk<V>(cells: map<Ref, Cell<V>>, count: map<Ref, nat>, next: nat, ext: Handles, x: Ref)
    requires HeapOk(cells, count, next, ext) && Has(ext, x) && x in cells && count[x] > 1
    ensures HeapOk(cells, count[x := count[x] - 1], next, Sub(ext, x))
  {
    var k2 := count[x := count[x] - 1];
    HasDef(ext, x);
    SubDef(ext, x);
    CountedDef(cells, count, next, ext);
    CountedDef(cells, k2, next, Sub(ext, x));
    forall z | z in cells && z in k2
      ensures k2[z] == (ext.ms - multiset{x})[z] + Inbound(cells, k2, next, z)
    {
      DecTally(cells, count, next, ext.ms, x, z);
    }
  }

  /** Destroying the last handle to a node: the node is deleted and its
      child handles become outside handles, to be destroyed in turn. */
  lemma FreeOk<V>(cells: map<Ref, Cell<V>>, count: map<Ref, nat>, next: nat, ext: Handles, x: Ref)
    requires HeapOk(cells, count, next, ext) && Has(ext, x) && x in cells && count[x] == 1
    ensures HeapOk(cells, count[x := 0], next, AddKids(Sub(ext, x), cells[x]))
  {
    HasDef(ext, x);
    SubDef(ext, x);
    AddKidsDef(Sub(ext, x), cells[x]);
    FreeCounts(cells, count, next, ext.ms, x);
  }

  /** The counting part of `FreeOk`. */
  lemma FreeCounts<V>(cells: map<Ref, Cell<V>>, count: map<Ref, nat>, next: nat, ext: multiset<Ref>, x: Ref)
    requires Shaped(cells) && Counted(cells, count, next, Handles(ext))
    requires x in ext && x in cells && x in count && count[x] == 1
    ensures Counted(cells, count[x := 0], next, Handles(ext - multiset{x} + Kids(cells[x])))
  {
    NotOwnChild(cells, x);
    CountedDef(cells, count, next, Handles(ext));
    CountedDef(cells, count[x := 0], next, Handles(ext - multiset{x} + Kids(cells[x])));
    KidsInCells(cells, ext, x);
    FreeTallies(cells, count, next, ext, x);
  }

  /** `make_shared<leaf>`: a new node with one outside handle. */
  lemma LeafAllocOk<V>(cells: map<Ref, Cell<V>>, count: map<Ref, nat>, next: nat, ext: Handles, k: Key, v: V)
    requires HeapOk(cells, count, next, ext)
    ensures next !in cells
    ensures HeapOk(cells[next := LeafCell(k, v)], count[next := 1], next + 1, Add(ext, next))
  {
    AddDef(ext, next);
    LeafCounts(cells, count, next, ext.ms, k, v);
    ShapedExtend(cells, next, LeafCell(k, v));
  }

  /** The counting part of `LeafAllocOk`. */
  lemma LeafCounts<V>(cells: map<Ref, Cell<V>>, count: map<Ref, nat>, next: nat, ext: multiset<Ref>, k: Key, v: V)
    requires Shaped(cells) && Counted(cells, count, next, Handles(ext))
    ensures next !in cells
    ensures Counted(cells[next := LeafCell(k, v)], count[next := 1], next + 1, Handles(ext + multiset{next}))
  {
    var c2, k2, e2 := cells[next := LeafCell(k, v)], count[next := 1], ext + multiset{next};
    CountedDef(cells, count, next, Handles(ext));
    FreshUnheld(cells, count, next);
    CountedDef(c2, k2, next + 1, Handles(e2));
    forall z | z in c2 && z in k2
      ensures k2[z] == e2[z] + Inbound(c2, k2, next + 1, z)
    {
      LeafTally(cells, count, next, ext, k, v, z);
    }
  }

  /** `make_shared<branch>`: a new node with one outside handle, taking
      over two outside handles as its children. */
  lemma BranchAllocOk<V>(cells: map<Ref, Cell<V>>, count: map<Ref, nat>, next: nat, ext: Handles,
                         p: Word, m: Word, l: Ref, r: Ref)
    requires HeapOk(cells, count, next, ext) && Has(ext, l) && Has(ext, r) && l in cells && r in cells
    requires BranchOk(p, m, CellHead(cells[l]), CellHead(cells[r]))
    ensures l != r && next !in cells
    ensures HeapOk(cells[next := BranchCell(p, m, l, r)], count[next := 1], next + 1,
                   Add(Sub(Sub(ext, l), r), next))
  {
    assert l != r;
    HasDef(ext, l);
    HasDef(ext, r);
    TakeTwoDef(ext, l, r, next);
    BranchCounts(cells, count, next, ext.ms, p, m, l, r);
    ShapedExtend(cells, next, BranchCell(p, m, l, r));
  }

  /** The counting part of `BranchAllocOk`. */
  lemma BranchCounts<V>(cells: map<Ref, Cell<V>>, count: map<Ref, nat>, next: nat, ext: multiset<Ref>,
                        p: Word, m: Word, l: Ref, r: Ref)
    requires Shaped(cells) && count.Keys == cells.Keys && Counted(cells, count, next, Handles(ext))
    requires l in ext && r in ext && l != r
    ensures next !in cells
    ensures Counted(cells[next := BranchCell(p, m, l, r)], count[next := 1], next + 1,
                    Handles(ext - multiset{l} - multiset{r} + multiset{next}))
  {
    var c2, k2 := cells[next := BranchCell(p, m, l, r)], count[next := 1];
    CountedDef(cells, count, next, Handles(ext));
    FreshUnheld(cells, count, next);
    CountedDef(c2, k2, next + 1, Handles(ext - multiset{l} - multiset{r} + multiset{next}));
    BranchTallies(cells, count, next, ext, p, m, l, r);
  }

  lemma TakeTwoDef(e: Handles, l: Ref, r: Ref, y: Ref)
    ensures Add(Sub(Sub(e, l), r), y).ms == e.ms - multiset{l} - multiset{r} + multiset{y}
  {
    SubDef(e, l);
    SubDef(Sub(e, l), r);
    AddDef(Sub(Sub(e, l), r), y);
  }

  /** Assigning a handle held outside to a child handle of a live branch
      (`fLeft = left`): the handle it held before becomes an outside
      handle. */
  lemma SetChildOk<V>(cells: map<Ref, Cell<V>>, count: map<Ref, nat>, next: nat, ext: Handles,
                      x: Ref, left: bool, y: Ref)
    requires HeapOk(cells, count, next, ext) && x in cells && count[x] > 0 && cells[x].BranchCell?
    requires Has(ext, y) && y in cells && EdgeOk(cells[x].prefix, cells[x].mask, CellHead(cells[y]), left)
    ensures HeapOk(cells[x := WithChild(cells[x], left, y)], count, next, Add(Sub(ext, y), Child(cells[x], left)))
  {
    var c := WithChild(cells[x], left, y);
    HasDef(ext, y);
    SubDef(ext, y);
    AddDef(Sub(ext, y), Child(cells[x], left));
    assert CellOk(cells, x);
    assert CellHead(cells[x := c][y]) == CellHead(cells[y]);
    ShapedReplace(cells, x, c);
    SetCounts(cells, count, next, ext.ms, x, left, y);
  }

  /** The counting part of `SetChildOk`. */
  lemma SetCounts<V>(cells: map<Ref, Cell<V>>, count: map<Ref, nat>, next: nat, ext: multiset<Ref>,
                     x: Ref, left: bool, y: Ref)
    requires Shaped(cells) && Counted(cells, count, next, Handles(ext))
    requires x in cells && x in count && count[x] > 0 && cells[x].BranchCell? && y in ext && y in cells
    ensures Counted(cells[x := WithChild(cells[x], left, y)], count, next,
                    Handles(ext - multiset{y} + multiset{Child(cells[x], left)}))
  {
    var c2 := cells[x := WithChild(cells[x], left, y)];
    var e2 := ext - multiset{y} + multiset{Child(cells[x], left)};
    assert CellOk(cells, x);
    CountedDef(cells, count, next, Handles(ext));
    CountedDef(c2, count, next, Handles(e2));
    forall z | z in c2 && z in count
      ensures count[z] == e2[z] + Inbound(c2, count, next, z)
    {
      SetTally(cells, count, next, ext, x, left, y, z);
    }
  }

  // ---------------------------------------------------------------------
  // Copy-on-write isolation

  /** A node lower than `x` cannot reach it. */
  lemma LowerNotReaching<V>(cells: map<Ref, Cell<V>>, h: Ref, x: Ref)
    requires Shaped(cells) && h in cells && x in cells && Below(Height(cells[h]), Height(cells[x]))
    ensures x !in Reach(cells, h)
  {
    if x in Reach(cells, h) {
      ReachLower(cells, h, x);
      BelowDef(Height(cells[h]), Height(cells[x]));
      if x != h {
        BelowDef(Height(cells[x]), Height(cells[h]));
      }
      assert false;
    }
  }

  /** A child of a branch is in the arena, has a smaller depth, and
      cannot reach its parent. */
  lemma ChildStep<V>(cells: map<Ref, Cell<V>>, x: Ref, c: Ref)
    requires Shaped(cells) && x in cells && Slots(cells[x], c) > 0
    ensures c in cells && Depth(cells, c) < Depth(cells, x) && x !in Reach(cells, c)
  {
    ChildBelow(cells, x, c);
    LowerNotReaching(cells, c, x);
    assert CellOk(cells, x);
  }

  /** A node that may hang on side `left` of branch `x` is lower than `x`
      and cannot reach it. */
  lemma EdgeNotReaching<V>(cells: map<Ref, Cell<V>>, x: Ref, left: bool, y: Ref)
    requires Shaped(cells) && x in cells && cells[x].BranchCell? && y in cells
    requires EdgeOk(cells[x].prefix, cells[x].mask, CellHead(cells[y]), left)
    ensures Below(Height(cells[y]), Height(cells[x])) && x !in Reach(cells, y)
  {
    assert CellOk(cells, x);
    EdgeLower(cells[x].prefix, cells[x].mask, CellHead(cells[y]), left);
    LowerNotReaching(cells, y, x);
  }

  /** Every node a handle owns exclusively has count 1. */
  lemma {:induction false} OwnedCount<V>(cells: map<Ref, Cell<V>>, count: map<Ref, nat>, x: Ref, z: Ref)
    requires Shaped(cells) && x in cells && z in Owned(cells, count, x)
    ensures z in count && count[z] == 1
    decreases Height(cells[x]).raw
  {
    match cells[x]
    case LeafCell(_, _) =>
    case BranchCell(_, _, l, r) =>
      if z != x {
        ChildLower(cells, x, l);
        ChildLower(cells, x, r);
        if z in Owned(cells, count, l) {
          OwnedCount(cells, count, l, z);
        } else {
          OwnedCount(cells, count, r, z);
        }
      }
  }

  /** Everything reachable from a live node is live. */
  lemma {:induction false} ReachLive<V>(cells: map<Ref, Cell<V>>, count: map<Ref, nat>, next: nat, ext: Handles,
                                        h: Ref, z: Ref)
    requires HeapOk(cells, count, next, ext) && h in cells && count[h] > 0 && z in Reach(cells, h)
    ensures z in cells && count[z] > 0
    decreases Height(cells[h]).raw
  {
    match cells[h]
    case LeafCell(_, _) =>
    case BranchCell(_, _, l, r) =>
      if z != h {
        ChildLower(cells, h, l);
        ChildLower(cells, h, r);
        ChildLive(cells, count, next, ext, h, l);
        ChildLive(cells, count, next, ext, h, r);
        if z in Reach(cells, l) {
          ReachLive(cells, count, next, ext, l, z);
        } else {
          ReachLive(cells, count, next, ext, r, z);
        }
      }
  }

  /** A node with count 1 has at most one live parent. */
  lemma SoleParent<V>(cells: map<Ref, Cell<V>>, count: map<Ref, nat>, next: nat, ext: Handles,
                      z: Ref, q1: Ref, q2: Ref)
    requires HeapOk(cells, count, next, ext) && z in count && count[z] == 1
    requires q1 in cells && count[q1] > 0 && Slots(cells[q1], z) > 0
    requires q2 in cells && count[q2] > 0 && Slots(cells[q2], z) > 0
    ensures q1 == q2
  {
    CountedDef(cells, count, next, ext);
    if q1 != q2 {
      InboundHasTwo(cells, count, next, q1, q2, z);
      assert false;
    }
  }

  /** Nothing reachable from a live node `h` is owned exclusively through
      `R`, provided `h` itself is not and `R` is not reachable from `h`
      with anything to own. */
  lemma {:induction false} Isolation<V>(cells: map<Ref, Cell<V>>, count: map<Ref, nat>, next: nat, ext: Handles,
                                        h: Ref, R: Ref)
    requires HeapOk(cells, count, next, ext) && h in cells && count[h] > 0 && R in cells
    requires h !in Owned(cells, count, R)
    requires R in Reach(cells, h) ==> Owned(cells, count, R) == {}
    ensures Reach(cells, h) !! Owned(cells, count, R)
    decreases Height(cells[h]).raw
  {
    match cells[h]
    case LeafCell(_, _) =>
    case BranchCell(_, _, l, r) =>
      ChildLower(cells, h, l);
      ChildLower(cells, h, r);
      IsolateChild(cells, count, next, ext, h, l, R);
      IsolateChild(cells, count, next, ext, h, r, R);
      Isolation(cells, count, next, ext, l, R);
      Isolation(cells, count, next, ext, r, R);
  }

  /** The step of `Isolation`: a child of `h` is live and not owned through
      `R` either. */
  lemma IsolateChild<V>(cells: map<Ref, Cell<V>>, count: map<Ref, nat>, next: nat, ext: Handles,
                        h: Ref, c: Ref, R: Ref)
    requires HeapOk(cells, count, next, ext) && h in cells && count[h] > 0 && R in cells
    requires cells[h].BranchCell? && (c == cells[h].left || c == cells[h].right)
    requires h !in Owned(cells, count, R)
    requires R in Reach(cells, h) ==> Owned(cells, count, R) == {}
    ensures c in cells && count[c] > 0 && c !in Owned(cells, count, R)
    ensures R in Reach(cells, c) ==> Owned(cells, count, R) == {}
  {
    ChildLive(cells, count, next, ext, h, c);
    assert Reach(cells, c) <= Reach(cells, h) by {
      ChildLower(cells, h, cells[h].left);
      ChildLower(cells, h, cells[h].right);
    }
    if c in Owned(cells, count, R) {
      if c == R {
        assert false;
      }
      var q := ParentInOwned(cells, count, R, c);
      OwnedCount(cells, count, R, q);
      OwnedCount(cells, count, R, c);
      SoleParent(cells, count, next, ext, c, q, h);
      assert false;
    }
  }

  /** Nothing another outside handle reaches is owned exclusively through
      the outside handle to `x`. */
  lemma RootIsolation<V>(cells: map<Ref, Cell<V>>, count: map<Ref, nat>, next: nat, ext: Handles,
                         x: Ref, h: Ref)
    requires HeapOk(cells, count, next, ext) && Has(ext, x) && Has(Sub(ext, x), h)
    ensures h in cells && x in cells && Reach(cells, h) !! Owned(cells, count, x)
  {
    CountedDef(cells, count, next, ext);
    HasDef(ext, x);
    SubDef(ext, x);
    HasDef(Sub(ext, x), h);
    if count[x] == 1 {
      assert h != x;
      if h in Owned(cells, count, x) {
        var q := ParentInOwned(cells, count, x, h);
        OwnedCount(cells, count, x, q);
        OwnedCount(cells, count, x, h);
        InboundHas(cells, count, next, q, h);
        assert false;
      }
      if x in Reach(cells, h) {
        var q := ParentInReach(cells, h, x);
        ReachLive(cells, count, next, ext, h, q);
        InboundHas(cells, count, next, q, x);
        assert false;
      }
      Isolation(cells, count, next, ext, h, x);
    }
  }

  /** Nothing the sibling of a live branch's child reaches is owned
      exclusively through that child. */
  lemma SiblingIsolation<V>(cells: map<Ref, Cell<V>>, count: map<Ref, nat>, next: nat, ext: Handles,
                            x: Ref, left: bool)
    requires HeapOk(cells, count, next, ext) && x in cells && count[x] > 0 && cells[x].BranchCell?
    ensures Child(cells[x], left) in cells && Child(cells[x], !left) in cells
    ensures Reach(cells, Child(cells[x], !left)) !! Owned(cells, count, Child(cells[x], left))
  {
    var c, s := Child(cells[x], left), Child(cells[x], !left);
    assert CellOk(cells, x);
    assert c != s;
    ChildBelow(cells, x, c);
    ChildBelow(cells, x, s);
    ChildLive(cells, count, next, ext, x, s);
    LowerNotReaching(cells, c, x);
    LowerNotReaching(cells, s, x);
    if s in Owned(cells, count, c) {
      var q := ParentInOwned(cells, count, c, s);
      OwnedReached(cells, count, c);
      OwnedCount(cells, count, c, q);
      OwnedCount(cells, count, c, s);
      SoleParent(cells, count, next, ext, s, q, x);
      assert false;
    }
    if c in Reach(cells, s) && count[c] == 1 {
      var q := ParentInReach(cells, s, c);
      ReachLive(cells, count, next, ext, s, q);
      SoleParent(cells, count, next, ext, c, q, x);
      assert false;
    }
    Isolation(cells, count, next, ext, s, c);
  }
}
