/** The PATRICIA trie as a value: the node logic that `shared_scalar_map`
    runs on every call and that `SharedRadixTree` runs on its copy-on-write
    paths.  Every operation here only builds new nodes.  The lemmas relate
    the trie to the finite map `Contents` it stands for. */
module Trie {
  import opened Bits
  import opened Wrappers

  /** A key of the map.  The trie works on its bit pattern, the key
      converted to the prefix type (`static_cast<Prefix>(key)`); for an
      unsigned key the conversion is the identity, so distinct keys have
      distinct bits. */
  datatype Key = Key(bits: Word)

  /** A node is a leaf holding one key/value pair, or a branch splitting
      the keys that agree with `prefix` above `mask` by their bit at
      `mask`. */
  datatype Node<V> =
    | Leaf(key: Key, value: V)
    | Branch(prefix: Word, mask: Word, left: Node<V>, right: Node<V>)

  /** What a parent branch needs to know of a child: whether it is a
      branch, its prefix (a leaf's key bits act as its prefix) and its
      mask. */
  datatype Head = Head(isBranch: bool, prefix: Word, mask: Word)

  function HeadOf<V>(t: Node<V>): Head {
    match t
    case Leaf(k, _) => Head(false, k.bits, Zero)
    case Branch(p, m, _, _) => Head(true, p, m)
  }

  /** A child with head `h` may hang on side `left` of a branch with prefix
      `p` and mask `m`: its prefix agrees with `p` above the mask and has bit
      `m` as the side says, and a branch child splits at a less significant
      bit. */
  predicate EdgeOk(p: Word, m: Word, h: Head, left: bool) {
    !NotMem(h.prefix, p, m) && Left(h.prefix, m) == left && (h.isBranch ==> Below(h.mask, m))
  }

  /** The documented meaning of a branch's fields, for the heads of its
      children: `fMask` has one bit set, `fPrefix` has no bit at or below
      it, and every key below agrees with `fPrefix` above the mask, the left
      child's keys having a 0 at the mask and the right child's a 1. */
  predicate BranchOk(p: Word, m: Word, l: Head, r: Head) {
    IsMask(m) && IsPrefix(p, m) && EdgeOk(p, m, l, true) && EdgeOk(p, m, r, false)
  }

  /** Every branch of the trie is well formed. */
  predicate Valid<V>(t: Node<V>) {
    match t
    case Leaf(_, _) => true
    case Branch(p, m, l, r) => BranchOk(p, m, HeadOf(l), HeadOf(r)) && Valid(l) && Valid(r)
  }

  /** The map a trie stands for. */
  function Contents<V>(t: Node<V>): map<Key, V> {
    match t
    case Leaf(k, v) => map[k := v]
    case Branch(_, _, l, r) => Contents(l) + Contents(r)
  }

  /** The map an optional trie (an empty handle being none) stands for. */
  function OptContents<V>(o: Option<Node<V>>): map<Key, V> {
    match o
    case None => map[]
    case Some(t) => Contents(t)
  }

  /** Where the keys of a trie lie: a leaf holds its own key, a branch only
      keys agreeing with its prefix above its mask. */
  predicate Covers(h: Head, k: Word) {
    if h.isBranch then !NotMem(k, h.prefix, h.mask) else k == h.prefix
  }

  // ---------------------------------------------------------------------
  // Operations

  /** `make_branch`: a branch over two nodes with different prefixes, split
      at their most significant differing bit; `n1` goes left exactly when
      `p1` has a 0 there. */
  function MakeBranch<V>(p1: Word, n1: Node<V>, p2: Word, n2: Node<V>): (r: Node<V>)
    requires p1 != p2
    ensures r.Branch? && r.mask == MakeMask(p1, p2) && r.prefix == MakePrefix(p1, r.mask)
    ensures IsPrefix(r.prefix, r.mask)
    ensures !NotMem(p1, r.prefix, r.mask) && !NotMem(p2, r.prefix, r.mask)
    ensures Left(p1, r.mask) != Left(p2, r.mask)
    ensures Left(p1, r.mask) ==> r.left == n1 && r.right == n2
    ensures !Left(p1, r.mask) ==> r.left == n2 && r.right == n1
  {
    var m := MakeMask(p1, p2);
    MakePrefixIsPrefix(p1, m);
    MakePrefixMem(p1, m);
    SplitMem2(p1, p2, m);
    SplitOpposite(p1, p2, m);
    var p := MakePrefix(p1, m);
    if Left(p1, m) then Branch(p, m, n1, n2) else Branch(p, m, n2, n1)
  }

  /** The branch with prefix `p` and mask `m` holding `c` on side `left`
      and `s` on the other side. */
  function Join<V>(p: Word, m: Word, left: bool, c: Node<V>, s: Node<V>): Node<V> {
    if left then Branch(p, m, c, s) else Branch(p, m, s, c)
  }

  /** `find`: the value stored under `k`, if any. */
  function Find<V>(t: Node<V>, k: Key): Option<V> {
    match t
    case Leaf(key, v) => if k != key then None else Some(v)
    case Branch(p, m, l, r) =>
      if NotMem(k.bits, p, m) then None
      else if Left(k.bits, m) then Find(l, k)
      else Find(r, k)
  }

  /** The result of an insertion: the node replacing the old one, the value
      now stored under the key (the iterator's target) and whether an
      insertion took place. */
  datatype InsertResult<V> = InsertResult(node: Node<V>, value: V, inserted: bool)

  /** `insert_shared` (and `shared_scalar_map`'s `insert`): a present key
      keeps its value; an absent key gets a new leaf, split off at the
      leaf it meets or at the first branch whose prefix it does not share. */
  function Insert<V>(t: Node<V>, k: Key, v: V): InsertResult<V>
    requires Valid(t)
  {
    match t
    case Leaf(key, value) =>
      if k == key then InsertResult(t, value, false)
      else InsertResult(MakeBranch(k.bits, Leaf(k, v), key.bits, t), v, true)
    case Branch(p, m, l, r) =>
      if NotMem(k.bits, p, m) then
        NotMemDiffers(k.bits, p, m);
        InsertResult(MakeBranch(k.bits, Leaf(k, v), p, t), v, true)
      else if Left(k.bits, m) then
        var res := Insert(l, k, v);
        InsertResult(Branch(p, m, res.node, r), res.value, res.inserted)
      else
        var res := Insert(r, k, v);
        InsertResult(Branch(p, m, l, res.node), res.value, res.inserted)
  }

  /** The result of an erasure: the node replacing the old one (none when
      the trie becomes empty) and the number of elements removed. */
  datatype EraseResult<V> = EraseResult(node: Option<Node<V>>, removed: nat)

  /** `erase_shared`: a matching leaf disappears, and a branch that loses a
      child collapses into its other child. */
  function Erase<V>(t: Node<V>, k: Key): EraseResult<V> {
    match t
    case Leaf(key, _) =>
      if k == key then EraseResult(None, 1) else EraseResult(Some(t), 0)
    case Branch(p, m, l, r) =>
      if NotMem(k.bits, p, m) then EraseResult(Some(t), 0)
      else if Left(k.bits, m) then
        var res := Erase(l, k);
        if res.node.Some? then EraseResult(Some(Branch(p, m, res.node.value, r)), res.removed)
        else EraseResult(Some(r), res.removed)
      else
        var res := Erase(r, k);
        if res.node.Some? then EraseResult(Some(Branch(p, m, l, res.node.value)), res.removed)
        else EraseResult(Some(l), res.removed)
  }

  // ---------------------------------------------------------------------
  // Where the keys of a valid trie lie

  /** Every key of a valid trie is covered by the trie's head. */
  lemma {:induction false} KeysCovered<V>(t: Node<V>, k: Key)
    requires Valid(t) && k in Contents(t)
    ensures Covers(HeadOf(t), k.bits)
  {
    match t
    case Leaf(_, _) =>
    case Branch(p, m, l, r) =>
      if k in Contents(l) {
        KeysCovered(l, k);
        EdgeKey(p, m, l, true, k.bits);
      } else {
        KeysCovered(r, k);
        EdgeKey(p, m, r, false, k.bits);
      }
  }

  /** A key covered by a child hanging on side `left` of a branch agrees
      with the branch's prefix and has the bit that side stands for. */
  lemma EdgeKey<V>(p: Word, m: Word, c: Node<V>, left: bool, k: Word)
    requires IsMask(m) && Valid(c) && EdgeOk(p, m, HeadOf(c), left) && Covers(HeadOf(c), k)
    ensures !NotMem(k, p, m) && Left(k, m) == left
  {
    if c.Branch? {
      WidenMem(k, c.prefix, c.mask, p, m);
      WidenSide(k, c.prefix, c.mask, m);
    }
  }

  /** The keys of a branch's left child have a 0 at the mask, those of its
      right child a 1, and all agree with the prefix above it. */
  lemma ChildKeys<V>(t: Node<V>, k: Key)
    requires Valid(t) && t.Branch?
    ensures k in Contents(t.left) ==> !NotMem(k.bits, t.prefix, t.mask) && Left(k.bits, t.mask)
    ensures k in Contents(t.right) ==> !NotMem(k.bits, t.prefix, t.mask) && !Left(k.bits, t.mask)
  {
    if k in Contents(t.left) {
      KeysCovered(t.left, k);
      EdgeKey(t.prefix, t.mask, t.left, true, k.bits);
    }
    if k in Contents(t.right) {
      KeysCovered(t.right, k);
      EdgeKey(t.prefix, t.mask, t.right, false, k.bits);
    }
  }

  /** The two children of a valid branch hold disjoint keys. */
  lemma ChildrenDisjoint<V>(t: Node<V>)
    requires Valid(t) && t.Branch?
    ensures Contents(t.left).Keys !! Contents(t.right).Keys
  {
    forall k | k in Contents(t.left) ensures k !in Contents(t.right) {
      ChildKeys(t, k);
    }
  }

  // ---------------------------------------------------------------------
  // find

  /** `Find` returns exactly the value the map holds under the key, and
      nothing for a key the map lacks. */
  lemma {:induction false} FindCorrect<V>(t: Node<V>, k: Key)
    requires Valid(t)
    ensures Find(t, k) == if k in Contents(t) then Some(Contents(t)[k]) else None
  {
    match t
    case Leaf(_, _) =>
    case Branch(p, m, l, r) =>
      ChildKeys(t, k);
      if !NotMem(k.bits, p, m) {
        if Left(k.bits, m) {
          FindCorrect(l, k);
        } else {
          FindCorrect(r, k);
        }
      }
  }

  // ---------------------------------------------------------------------
  // make_branch

  /** `MakeBranch` over two valid nodes, each headed by its prefix and
      splitting below the new mask, is valid. */
  lemma MakeBranchValid<V>(p1: Word, n1: Node<V>, p2: Word, n2: Node<V>)
    requires p1 != p2 && Valid(n1) && Valid(n2)
    requires HeadOf(n1).prefix == p1 && HeadOf(n2).prefix == p2
    requires n1.Branch? ==> Below(n1.mask, MakeMask(p1, p2))
    requires n2.Branch? ==> Below(n2.mask, MakeMask(p1, p2))
    ensures Valid(MakeBranch(p1, n1, p2, n2))
  {
    SplitsAtMask(p1, p2, MakeMask(p1, p2));
  }

  /** Disjoint maps may be joined in either order. */
  lemma UnionSwap<V>(a: map<Key, V>, b: map<Key, V>)
    requires a.Keys !! b.Keys
    ensures a + b == b + a
  {
    forall k | k in a ensures (b + a)[k] == a[k] && (a + b)[k] == a[k] {
      assert k !in b;
    }
  }

  /** `MakeBranch` over two nodes with disjoint keys holds both maps. */
  lemma MakeBranchContents<V>(p1: Word, n1: Node<V>, p2: Word, n2: Node<V>)
    requires p1 != p2
    requires Contents(n1).Keys !! Contents(n2).Keys
    ensures Contents(MakeBranch(p1, n1, p2, n2)) == Contents(n1) + Contents(n2)
  {
    UnionSwap(Contents(n1), Contents(n2));
  }

  /** The head of a new branch splitting `k` off a node headed by `q`, both
      hanging on side `left` under `p` and `m`, may take their place. */
  lemma SplitEdge(k: Word, q: Word, p: Word, m: Word, left: bool, n: Word)
    requires IsMask(m) && SplitsAt(k, q, n)
    requires !NotMem(k, p, m) && Left(k, m) == left
    requires !NotMem(q, p, m) && Left(q, m) == left
    ensures EdgeOk(p, m, Head(true, MakePrefix(k, n), n), left)
  {
    SplitsAtMask(k, q, n);
    SplitBelow(k, q, p, m, n);
    CutMem(k, p, m, n);
    CutSide(k, m, n);
  }

  // ---------------------------------------------------------------------
  // insert

  /** What `Insert` returns may replace the node it was given under its
      parent. */
  lemma InsertEdge<V>(t: Node<V>, k: Key, v: V, p: Word, m: Word, left: bool)
    requires Valid(t) && IsMask(m) && EdgeOk(p, m, HeadOf(t), left)
    requires !NotMem(k.bits, p, m) && Left(k.bits, m) == left
    ensures EdgeOk(p, m, HeadOf(Insert(t, k, v).node), left)
  {
    match t
    case Leaf(key, _) =>
      if k != key {
        SplitEdge(k.bits, key.bits, p, m, left, MakeMask(k.bits, key.bits));
      }
    case Branch(pt, mt, _, _) =>
      if NotMem(k.bits, pt, mt) {
        NotMemDiffers(k.bits, pt, mt);
        SplitEdge(k.bits, pt, p, m, left, MakeMask(k.bits, pt));
      }
  }

  /** `Insert` keeps the trie valid. */
  lemma {:induction false} InsertValid<V>(t: Node<V>, k: Key, v: V)
    requires Valid(t)
    ensures Valid(Insert(t, k, v).node)
  {
    match t
    case Leaf(key, _) =>
      if k != key {
        MakeBranchValid(k.bits, Leaf(k, v), key.bits, t);
      }
    case Branch(p, m, l, r) =>
      if NotMem(k.bits, p, m) {
        NotMemDiffers(k.bits, p, m);
        SplitAbove(k.bits, p, m, MakeMask(k.bits, p));
        MakeBranchValid(k.bits, Leaf(k, v), p, t);
      } else if Left(k.bits, m) {
        InsertValid(l, k, v);
        InsertEdge(l, k, v, p, m, true);
      } else {
        InsertValid(r, k, v);
        InsertEdge(r, k, v, p, m, false);
      }
  }

  /** A key outside a branch's prefix is not in the branch. */
  lemma OutsideAbsent<V>(t: Node<V>, k: Key)
    requires Valid(t) && t.Branch? && NotMem(k.bits, t.prefix, t.mask)
    ensures k !in Contents(t)
  {
    if k in Contents(t) {
      KeysCovered(t, k);
    }
  }

  /** A fresh key joined to a map as a one-entry map is an update. */
  lemma AddFresh<V>(a: map<Key, V>, k: Key, v: V)
    requires k !in a
    ensures map[k := v] + a == a[k := v]
  {
  }

  /** Updating one side of a union updates the union, provided the other
      side does not hide the update. */
  lemma UpdateLeft<V>(a: map<Key, V>, b: map<Key, V>, k: Key, v: V)
    requires k !in b
    ensures a[k := v] + b == (a + b)[k := v]
  {
  }

  lemma UpdateRight<V>(a: map<Key, V>, b: map<Key, V>, k: Key, v: V)
    ensures a + b[k := v] == (a + b)[k := v]
  {
  }

  /** Splitting an absent key off a node adds it to the node's map. */
  lemma SplitContents<V>(t: Node<V>, k: Key, v: V)
    requires k !in Contents(t) && k.bits != HeadOf(t).prefix
    ensures Contents(MakeBranch(k.bits, Leaf(k, v), HeadOf(t).prefix, t)) == Contents(t)[k := v]
  {
    MakeBranchContents(k.bits, Leaf(k, v), HeadOf(t).prefix, t);
    AddFresh(Contents(t), k, v);
  }

  /** `Insert` adds an absent key with its value and leaves the map of a
      present key unchanged. */
  lemma {:induction false} InsertContents<V>(t: Node<V>, k: Key, v: V)
    requires Valid(t)
    ensures Contents(Insert(t, k, v).node) ==
      if k in Contents(t) then Contents(t) else Contents(t)[k := v]
  {
    match t
    case Leaf(key, _) =>
      if k != key {
        SplitContents(t, k, v);
      }
    case Branch(p, m, l, r) =>
      ChildKeys(t, k);
      if NotMem(k.bits, p, m) {
        NotMemDiffers(k.bits, p, m);
        OutsideAbsent(t, k);
        SplitContents(t, k, v);
      } else if Left(k.bits, m) {
        InsertContents(l, k, v);
        if k !in Contents(l) {
          UpdateLeft(Contents(l), Contents(r), k, v);
        }
      } else {
        InsertContents(r, k, v);
        UpdateRight(Contents(l), Contents(r), k, v);
      }
  }

  /** `Insert` reports an insertion exactly when the key was absent, and
      returns the value now stored under the key: the kept value of a
      present key, or the new one. */
  lemma {:induction false} InsertReports<V>(t: Node<V>, k: Key, v: V)
    requires Valid(t)
    ensures Insert(t, k, v).inserted == (k !in Contents(t))
    ensures Insert(t, k, v).value == if k in Contents(t) then Contents(t)[k] else v
  {
    match t
    case Leaf(key, _) =>
    case Branch(p, m, l, r) =>
      ChildKeys(t, k);
      if NotMem(k.bits, p, m) {
        OutsideAbsent(t, k);
      } else if Left(k.bits, m) {
        InsertReports(l, k, v);
      } else {
        InsertReports(r, k, v);
      }
  }

  /** Inserting a key that is already present gives back the same trie. */
  lemma {:induction false} InsertPresent<V>(t: Node<V>, k: Key, v: V)
    requires Valid(t) && k in Contents(t)
    ensures Insert(t, k, v).node == t
  {
    match t
    case Leaf(_, _) =>
    case Branch(p, m, l, r) =>
      ChildKeys(t, k);
      if Left(k.bits, m) {
        InsertPresent(l, k, v);
      } else {
        InsertPresent(r, k, v);
      }
  }

  // ---------------------------------------------------------------------
  // erase

  /** A child's child may hang where the child hung. */
  lemma EdgeCompose(p: Word, m: Word, pt: Word, mt: Word, left: bool, h: Head, side: bool)
    requires IsMask(m) && IsMask(mt)
    requires EdgeOk(p, m, Head(true, pt, mt), left)
    requires EdgeOk(pt, mt, h, side)
    ensures EdgeOk(p, m, h, left)
  {
    WidenMem(h.prefix, pt, mt, p, m);
    WidenSide(h.prefix, pt, mt, m);
    if h.isBranch {
      BelowTrans(h.mask, mt, m);
    }
  }

  /** What `Erase` returns may replace the node it was given under its
      parent. */
  lemma EraseEdge<V>(t: Node<V>, k: Key, p: Word, m: Word, left: bool)
    requires Valid(t) && IsMask(m) && EdgeOk(p, m, HeadOf(t), left)
    requires Erase(t, k).node.Some?
    ensures EdgeOk(p, m, HeadOf(Erase(t, k).node.value), left)
  {
    match t
    case Leaf(_, _) =>
    case Branch(pt, mt, l, r) =>
      if !NotMem(k.bits, pt, mt) {
        if Left(k.bits, mt) && Erase(l, k).node.None? {
          EdgeCompose(p, m, pt, mt, left, HeadOf(r), false);
        } else if !Left(k.bits, mt) && Erase(r, k).node.None? {
          EdgeCompose(p, m, pt, mt, left, HeadOf(l), true);
        }
      }
  }

  /** `Erase` keeps the trie valid. */
  lemma {:induction false} EraseValid<V>(t: Node<V>, k: Key)
    requires Valid(t)
    ensures Erase(t, k).node.Some? ==> Valid(Erase(t, k).node.value)
  {
    match t
    case Leaf(_, _) =>
    case Branch(p, m, l, r) =>
      if !NotMem(k.bits, p, m) {
        if Left(k.bits, m) {
          EraseValid(l, k);
          if Erase(l, k).node.Some? {
            EraseEdge(l, k, p, m, true);
          }
        } else {
          EraseValid(r, k);
          if Erase(r, k).node.Some? {
            EraseEdge(r, k, p, m, false);
          }
        }
      }
  }

  /** Removing a key held on one side of a union removes it from the
      union. */
  lemma RemoveLeft<V>(a: map<Key, V>, b: map<Key, V>, k: Key)
    requires k !in b
    ensures (a - {k}) + b == (a + b) - {k}
  {
  }

  lemma RemoveRight<V>(a: map<Key, V>, b: map<Key, V>, k: Key)
    requires k !in a
    ensures a + (b - {k}) == (a + b) - {k}
  {
  }

  /** Removing a key from a one-entry map empties it exactly when the key
      is the entry's. */
  lemma RemoveFromLeaf<V>(key: Key, v: V, k: Key)
    ensures map[key := v] - {k} == if k == key then map[] else map[key := v]
  {
  }

  /** `Erase` removes the key and nothing else, and leaves no trie exactly
      when none remains. */
  lemma {:induction false} EraseContents<V>(t: Node<V>, k: Key)
    requires Valid(t)
    ensures OptContents(Erase(t, k).node) == Contents(t) - {k}
  {
    match t
    case Leaf(key, v) =>
      RemoveFromLeaf(key, v, k);
    case Branch(p, m, l, r) =>
      ChildKeys(t, k);
      if NotMem(k.bits, p, m) {
        OutsideAbsent(t, k);
        assert Contents(t) - {k} == Contents(t);
      } else if Left(k.bits, m) {
        EraseContents(l, k);
        RemoveLeft(Contents(l), Contents(r), k);
      } else {
        EraseContents(r, k);
        RemoveRight(Contents(l), Contents(r), k);
      }
  }

  /** `Erase` reports 1 removed element exactly when the key was present,
      and 0 otherwise. */
  lemma {:induction false} EraseRemoved<V>(t: Node<V>, k: Key)
    requires Valid(t)
    ensures Erase(t, k).removed == if k in Contents(t) then 1 else 0
  {
    match t
    case Leaf(_, _) =>
    case Branch(p, m, l, r) =>
      ChildKeys(t, k);
      if NotMem(k.bits, p, m) {
        OutsideAbsent(t, k);
      } else if Left(k.bits, m) {
        EraseRemoved(l, k);
      } else {
        EraseRemoved(r, k);
      }
  }

  /** Erasing an absent key gives back the same trie. */
  lemma {:induction false} EraseAbsent<V>(t: Node<V>, k: Key)
    requires Valid(t) && k !in Contents(t)
    ensures Erase(t, k).node == Some(t)
  {
    match t
    case Leaf(_, _) =>
    case Branch(p, m, l, r) =>
      if !NotMem(k.bits, p, m) {
        if Left(k.bits, m) {
          EraseAbsent(l, k);
        } else {
          EraseAbsent(r, k);
        }
      }
  }

  /** Some key of a trie: its leftmost leaf's. */
  function AnyKey<V>(t: Node<V>): (k: Key)
    ensures k in Contents(t)
  {
    match t
    case Leaf(k, _) => k
    case Branch(_, _, l, _) => AnyKey(l)
  }

  /** A trie never stands for the empty map: an empty map is an empty
      handle. */
  lemma NonEmpty<V>(t: Node<V>)
    ensures Contents(t) != map[]
  {
    assert AnyKey(t) in Contents(t);
  }
}
