/** Bit-prefix/mask arithmetic of the PATRICIA trie, on fixed-width
    unsigned keys.  A mask has exactly one bit set (the split bit); a
    prefix is a key with every bit at and below the split bit cleared.

    Each test is first written at the bit level (the `...Bits` members,
    which follow the C++ expressions).  The rest of the model uses sealed
    twins: `T(x)` is `TSeal(x, true)`, which only unfolds to the bit-level
    body by way of `TSeal(x, false)`, a step the solver does not take on its
    own.  So proofs about tries treat the tests as opaque and rely on the
    lemmas of this module, whose bodies unseal with the `...Def` lemmas.
    Keeping the bit-level reasoning here keeps every other proof small. */
module Bits {

  /** A 32-bit unsigned bit pattern: a prefix, a mask, or the bits of a key.
      The pattern is wrapped, so that only this module's bit-level members
      handle the `bv32` itself. */
  datatype Word = Word(raw: bv32)

  /** The mask field of a leaf's head: no bit set. */
  const Zero: Word := Word(0)

  // ---------------------------------------------------------------------
  // Bit-level definitions

  /** `m` has exactly one bit set. */
  predicate IsMaskBits(m: bv32) {
    m != 0 && m & (m - 1) == 0
  }

  /** The bits strictly above the single set bit of `m`: `~(m - 1) ^ m`. */
  function HighBits(m: bv32): bv32 {
    !(m - 1) ^ m
  }

  /** `not_mem`: `(key & (~(mask - 1) ^ mask)) != prefix`. */
  predicate NotMemBits(key: bv32, prefix: bv32, mask: bv32) {
    key & HighBits(mask) != prefix
  }

  /** `left`: `(key & mask) == 0`. */
  predicate LeftBits(key: bv32, mask: bv32) {
    key & mask == 0
  }

  /** `make_prefix`: `prefix & (~(mask - 1) ^ mask)`. */
  function MakePrefixBits(prefix: bv32, mask: bv32): bv32 {
    prefix & HighBits(mask)
  }

  /** `m` is the most significant bit at which `p1` and `p2` differ. */
  predicate SplitsAtBits(p1: bv32, p2: bv32, m: bv32) {
    IsMaskBits(m) && (p1 ^ p2) & m != 0 && (p1 ^ p2) & HighBits(m) == 0
  }

  /** Mask `a` is less significant than mask `b`. */
  predicate BelowBits(a: bv32, b: bv32) {
    a < b
  }

  /** `x` with every bit below its most significant set bit also set. */
  function Smear(x: bv32): bv32 {
    var a := x | (x >> 1);
    var b := a | (a >> 2);
    var c := b | (b >> 4);
    var d := c | (c >> 8);
    d | (d >> 16)
  }

  /** The most significant set bit of `x`, as a mask: `1 << log2(x)`, where
      `log2` is the bit-scan-reverse / count-leading-zeros index of the
      highest set bit, undefined for 0. */
  function HighestBit(x: bv32): (m: bv32)
    requires x != 0
    ensures IsMaskBits(m) && x & m != 0 && x & HighBits(m) == 0
  {
    var s := Smear(x);
    s ^ (s >> 1)
  }

  // ---------------------------------------------------------------------
  // Sealed tests, as the rest of the model sees them

  // Not recursion: `sealed` adds one step the verifier does not take on its own; `IsMaskDef` unfolds `IsMask`.
  predicate IsMaskSeal(m: Word, sealed: bool) {
    if !sealed then IsMaskBits(m.raw) else IsMaskSeal(m, false)
  }

  /** `m` is a mask: exactly one bit set. */
  predicate IsMask(m: Word) {
    IsMaskSeal(m, true)
  }

  // Not recursion: `sealed` adds one step the verifier does not take on its own; `NotMemDef` unfolds `NotMem`.
  predicate NotMemSeal(key: Word, prefix: Word, mask: Word, sealed: bool) {
    if !sealed then NotMemBits(key.raw, prefix.raw, mask.raw) else NotMemSeal(key, prefix, mask, false)
  }

  /** True when `key` definitely does not lie under a branch with this
      prefix and mask: it differs from `prefix` above the split bit. */
  predicate NotMem(key: Word, prefix: Word, mask: Word) {
    NotMemSeal(key, prefix, mask, true)
  }

  // Not recursion: `sealed` adds one step the verifier does not take on its own; `LeftDef` unfolds `Left`.
  predicate LeftSeal(key: Word, mask: Word, sealed: bool) {
    if !sealed then LeftBits(key.raw, mask.raw) else LeftSeal(key, mask, false)
  }

  /** True when `key` belongs to the left child of a branch: its bit at the
      split bit is 0. */
  predicate Left(key: Word, mask: Word) {
    LeftSeal(key, mask, true)
  }

  // Not recursion: `sealed` adds one step the verifier does not take on its own; `MakePrefixDef` unfolds `MakePrefix`.
  function MakePrefixSeal(prefix: Word, mask: Word, sealed: bool): Word {
    if !sealed then Word(MakePrefixBits(prefix.raw, mask.raw)) else MakePrefixSeal(prefix, mask, false)
  }

  /** `prefix` with every bit at and below the split bit of `mask` cleared. */
  function MakePrefix(prefix: Word, mask: Word): Word {
    MakePrefixSeal(prefix, mask, true)
  }

  /** `p` is a well-formed prefix for `mask`: nothing at or below the split bit. */
  predicate IsPrefix(p: Word, mask: Word) {
    MakePrefix(p, mask) == p
  }

  // Not recursion: `sealed` adds one step the verifier does not take on its own; `SplitsAtDef` unfolds `SplitsAt`.
  predicate SplitsAtSeal(p1: Word, p2: Word, m: Word, sealed: bool) {
    if !sealed then SplitsAtBits(p1.raw, p2.raw, m.raw) else SplitsAtSeal(p1, p2, m, false)
  }

  /** `m` is the most significant bit at which `p1` and `p2` differ. */
  predicate SplitsAt(p1: Word, p2: Word, m: Word) {
    SplitsAtSeal(p1, p2, m, true)
  }

  // Not recursion: `sealed` adds one step the verifier does not take on its own; `BelowDef` unfolds `Below`.
  predicate BelowSeal(a: Word, b: Word, sealed: bool) {
    if !sealed then BelowBits(a.raw, b.raw) else BelowSeal(a, b, false)
  }

  /** Mask `a` is less significant than mask `b`. */
  predicate Below(a: Word, b: Word) {
    BelowSeal(a, b, true)
  }

  // Not recursion: `sealed` adds one step the verifier does not take on its own; only the ensures of `MakeMask` is visible.
  function MakeMaskSeal(prefix1: Word, prefix2: Word, sealed: bool): (m: Word)
    requires prefix1 != prefix2
    ensures SplitsAt(prefix1, prefix2, m)
  {
    if !sealed then
      var m := Word(HighestBit(prefix1.raw ^ prefix2.raw));
      SplitsAtDef(prefix1, prefix2, m);
      m
    else MakeMaskSeal(prefix1, prefix2, false)
  }

  /** `make_mask`: the mask of the most significant bit at which two
      distinct prefixes differ, `1 << log2(prefix1 ^ prefix2)`. */
  function MakeMask(prefix1: Word, prefix2: Word): (m: Word)
    requires prefix1 != prefix2
    ensures SplitsAt(prefix1, prefix2, m)
  {
    MakeMaskSeal(prefix1, prefix2, true)
  }

  // ---------------------------------------------------------------------
  // Unsealing

  lemma IsMaskDef(m: Word)
    ensures IsMask(m) == IsMaskBits(m.raw)
  {
    assert IsMaskSeal(m, true) == IsMaskSeal(m, false);
  }

  lemma NotMemDef(k: Word, p: Word, m: Word)
    ensures NotMem(k, p, m) == NotMemBits(k.raw, p.raw, m.raw)
  {
    assert NotMemSeal(k, p, m, true) == NotMemSeal(k, p, m, false);
  }

  lemma LeftDef(k: Word, m: Word)
    ensures Left(k, m) == LeftBits(k.raw, m.raw)
  {
    assert LeftSeal(k, m, true) == LeftSeal(k, m, false);
  }

  lemma MakePrefixDef(p: Word, m: Word)
    ensures MakePrefix(p, m) == Word(MakePrefixBits(p.raw, m.raw))
  {
    assert MakePrefixSeal(p, m, true) == MakePrefixSeal(p, m, false);
  }

  lemma SplitsAtDef(p1: Word, p2: Word, m: Word)
    ensures SplitsAt(p1, p2, m) == SplitsAtBits(p1.raw, p2.raw, m.raw)
  {
    assert SplitsAtSeal(p1, p2, m, true) == SplitsAtSeal(p1, p2, m, false);
  }

  lemma BelowDef(a: Word, b: Word)
    ensures Below(a, b) == BelowBits(a.raw, b.raw)
  {
    assert BelowSeal(a, b, true) == BelowSeal(a, b, false);
  }

  // ---------------------------------------------------------------------
  // Meaning of the operators.  Each bit-level lemma states one fact, so
  // that the solver's bit-level reasoning stays small.

  /** For a mask, `HighBits` is exactly the bits strictly above its set bit:
      the complement of that bit together with every bit below it. */
  lemma HighBitsAbove(m: bv32)
    requires IsMaskBits(m)
    ensures HighBits(m) == !(m | (m - 1))
  {
  }

  /** `Left` reads the key's bit at the mask: flipping that bit flips the
      test. */
  lemma LeftFlips(k: Word, m: Word)
    requires IsMask(m)
    ensures Left(Word(k.raw ^ m.raw), m) != Left(k, m)
  {
    IsMaskDef(m);
    LeftDef(k, m);
    LeftDef(Word(k.raw ^ m.raw), m);
    LeftFlipsBits(k.raw, m.raw);
  }

  lemma LeftFlipsBits(k: bv32, m: bv32)
    requires IsMaskBits(m)
    ensures LeftBits(k ^ m, m) != LeftBits(k, m)
  {
  }

  /** ... and no other bit: flipping any other single bit keeps the test. */
  lemma LeftIgnoresOthers(k: Word, m: Word, b: bv32)
    requires IsMask(m) && IsMaskBits(b) && b != m.raw
    ensures Left(Word(k.raw ^ b), m) == Left(k, m)
  {
    IsMaskDef(m);
    LeftDef(k, m);
    LeftDef(Word(k.raw ^ b), m);
    LeftIgnoresBits(k.raw, m.raw, b);
  }

  lemma LeftIgnoresBits(k: bv32, m: bv32, b: bv32)
    requires IsMaskBits(m) && IsMaskBits(b) && b != m
    ensures LeftBits(k ^ b, m) == LeftBits(k, m)
  {
  }

  /** `MakePrefix(k, m)` is a prefix for `m`: the bits at and below the mask
      are cleared, so clearing them again changes nothing. */
  lemma MakePrefixIsPrefix(k: Word, m: Word)
    ensures IsPrefix(MakePrefix(k, m), m)
  {
    MakePrefixDef(k, m);
    MakePrefixDef(MakePrefix(k, m), m);
  }

  /** `MakePrefix(k, m)` keeps each bit `b` of `k` strictly above the mask's
      bit. */
  lemma MakePrefixKeepsHigh(k: Word, m: Word, b: bv32)
    requires IsMask(m) && IsMaskBits(b) && m.raw < b
    ensures MakePrefix(k, m).raw & b == k.raw & b
  {
    IsMaskDef(m);
    MakePrefixDef(k, m);
    KeepsHighBits(k.raw, m.raw, b);
  }

  lemma KeepsHighBits(k: bv32, m: bv32, b: bv32)
    requires IsMaskBits(m) && IsMaskBits(b) && m < b
    ensures MakePrefixBits(k, m) & b == k & b
  {
  }

  /** For a mask `m`, `MakePrefix(k, m)` has no bit set at or below the
      mask's bit. */
  lemma MakePrefixClearsLow(k: Word, m: Word)
    requires IsMask(m)
    ensures MakePrefix(k, m).raw & (m.raw | (m.raw - 1)) == 0
  {
    IsMaskDef(m);
    MakePrefixDef(k, m);
    ClearsLowBits(k.raw, m.raw);
  }

  lemma ClearsLowBits(k: bv32, m: bv32)
    requires IsMaskBits(m)
    ensures MakePrefixBits(k, m) & (m | (m - 1)) == 0
  {
  }

  /** `NotMem` never rejects a key against its own prefix. */
  lemma MakePrefixMem(k: Word, m: Word)
    ensures !NotMem(k, MakePrefix(k, m), m)
  {
    MakePrefixDef(k, m);
    NotMemDef(k, MakePrefix(k, m), m);
  }

  /** Against a well-formed prefix, `NotMem` is false exactly when the key
      agrees with the prefix on `HighBits` of the mask, which `HighBitsAbove`
      shows are exactly the bits strictly above the mask's bit. */
  lemma NotMemAgrees(k: Word, p: Word, m: Word)
    requires IsMask(m) && IsPrefix(p, m)
    ensures !NotMem(k, p, m) <==> k.raw & HighBits(m.raw) == p.raw & HighBits(m.raw)
  {
    IsMaskDef(m);
    MakePrefixDef(p, m);
    NotMemDef(k, p, m);
    NotMemAgreesBits(k.raw, p.raw, m.raw);
  }

  lemma NotMemAgreesBits(k: bv32, p: bv32, m: bv32)
    requires MakePrefixBits(p, m) == p
    ensures !NotMemBits(k, p, m) <==> k & HighBits(m) == p & HighBits(m)
  {
  }

  /** A key that differs from a well-formed prefix at a single bit `b` above
      the mask's bit is rejected by `NotMem`. */
  lemma NotMemBitAbove(k: Word, p: Word, m: Word, b: bv32)
    requires IsMask(m) && IsPrefix(p, m) && IsMaskBits(b) && m.raw < b
    requires k.raw & b != p.raw & b
    ensures NotMem(k, p, m)
  {
    IsMaskDef(m);
    NotMemDef(k, p, m);
    BitAboveBits(k.raw, p.raw, m.raw, b);
  }

  lemma BitAboveBits(k: bv32, p: bv32, m: bv32, b: bv32)
    requires IsMaskBits(m) && IsMaskBits(b) && m < b && k & b != p & b
    ensures NotMemBits(k, p, m)
  {
  }

  /** Bits of the key at or below the mask's bit do not matter to `NotMem`:
      flipping one keeps the test. */
  lemma NotMemIgnoresLow(k: Word, f: Word, p: Word, m: Word, b: bv32)
    requires IsMask(m) && IsMaskBits(b) && b <= m.raw && f.raw == k.raw ^ b
    ensures NotMem(f, p, m) == NotMem(k, p, m)
  {
    IsMaskDef(m);
    NotMemDef(k, p, m);
    NotMemDef(f, p, m);
    IgnoresLowBits(k.raw, p.raw, m.raw, b);
  }

  lemma IgnoresLowBits(k: bv32, p: bv32, m: bv32, b: bv32)
    requires IsMaskBits(m) && IsMaskBits(b) && b <= m
    ensures NotMemBits(k ^ b, p, m) == NotMemBits(k, p, m)
  {
  }

  /** A mask splitting two prefixes is determined by them: it is the mask
      `MakeMask` returns. */
  lemma SplitsAtUnique(p1: Word, p2: Word, m: Word)
    requires p1 != p2 && SplitsAt(p1, p2, m)
    ensures m == MakeMask(p1, p2)
  {
    SplitsAtDef(p1, p2, m);
    SplitsAtDef(p1, p2, MakeMask(p1, p2));
    SplitsUniqueBits(p1.raw, p2.raw, m.raw, MakeMask(p1, p2).raw);
  }

  lemma SplitsUniqueBits(p1: bv32, p2: bv32, m: bv32, n: bv32)
    requires SplitsAtBits(p1, p2, m) && SplitsAtBits(p1, p2, n)
    ensures m == n
  {
  }

  /** A splitting bit is a mask. */
  lemma SplitsAtMask(p1: Word, p2: Word, m: Word)
    requires SplitsAt(p1, p2, m)
    ensures IsMask(m)
  {
    SplitsAtDef(p1, p2, m);
    IsMaskDef(m);
  }

  /** `Below` is transitive. */
  lemma BelowTrans(a: Word, b: Word, c: Word)
    requires Below(a, b) && Below(b, c)
    ensures Below(a, c)
  {
    BelowDef(a, b);
    BelowDef(b, c);
    BelowDef(a, c);
  }

  /** Nothing is below itself. */
  lemma BelowIrrefl(a: Word)
    ensures !Below(a, a)
  {
    BelowDef(a, a);
  }

  /** Of two masks, at most one is below the other. */
  lemma BelowAsym(a: Word, b: Word)
    requires Below(a, b)
    ensures !Below(b, a)
  {
    BelowDef(a, b);
    BelowDef(b, a);
  }

  /** A mask is nonzero, so every mask is above a leaf's mask field. */
  lemma MaskPositive(m: Word)
    requires IsMask(m)
    ensures Below(Zero, m)
  {
    IsMaskDef(m);
    BelowDef(Zero, m);
  }

  // ---------------------------------------------------------------------
  // Facts used by the trie's split steps

  /** Splitting two keys that both agree with one prefix above the bit of
      `m`, and lie on the same side of it, yields a less significant mask. */
  lemma SplitBelow(k1: Word, k2: Word, p: Word, m: Word, n: Word)
    requires IsMask(m) && SplitsAt(k1, k2, n)
    requires !NotMem(k1, p, m) && !NotMem(k2, p, m)
    requires Left(k1, m) == Left(k2, m)
    ensures Below(n, m)
  {
    IsMaskDef(m);
    SplitsAtDef(k1, k2, n);
    NotMemDef(k1, p, m);
    NotMemDef(k2, p, m);
    LeftDef(k1, m);
    LeftDef(k2, m);
    BelowDef(n, m);
    SplitBelowBits(k1.raw, k2.raw, p.raw, m.raw, n.raw);
  }

  lemma SplitBelowBits(k1: bv32, k2: bv32, p: bv32, m: bv32, n: bv32)
    requires IsMaskBits(m) && SplitsAtBits(k1, k2, n)
    requires !NotMemBits(k1, p, m) && !NotMemBits(k2, p, m)
    requires LeftBits(k1, m) == LeftBits(k2, m)
    ensures n < m
  {
  }

  /** A key outside a branch differs from the branch's prefix. */
  lemma NotMemDiffers(k: Word, p: Word, m: Word)
    requires IsPrefix(p, m) && NotMem(k, p, m)
    ensures k != p
  {
    MakePrefixDef(p, m);
    NotMemDef(k, p, m);
  }

  /** A key outside a branch splits from the branch's prefix at a bit more
      significant than the branch's mask. */
  lemma SplitAbove(k: Word, p: Word, m: Word, n: Word)
    requires IsMask(m) && IsPrefix(p, m) && NotMem(k, p, m)
    requires SplitsAt(k, p, n)
    ensures Below(m, n)
  {
    IsMaskDef(m);
    MakePrefixDef(p, m);
    NotMemDef(k, p, m);
    SplitsAtDef(k, p, n);
    BelowDef(m, n);
    SplitAboveBits(k.raw, p.raw, m.raw, n.raw);
  }

  lemma SplitAboveBits(k: bv32, p: bv32, m: bv32, n: bv32)
    requires IsMaskBits(m) && MakePrefixBits(p, m) == p && NotMemBits(k, p, m)
    requires SplitsAtBits(k, p, n)
    ensures m < n
  {
  }

  /** The second prefix of a split agrees with the prefix cut from the first
      (the first does by `MakePrefixMem`)... */
  lemma SplitMem2(p1: Word, p2: Word, m: Word)
    requires SplitsAt(p1, p2, m)
    ensures !NotMem(p2, MakePrefix(p1, m), m)
  {
    SplitsAtDef(p1, p2, m);
    MakePrefixDef(p1, m);
    NotMemDef(p2, MakePrefix(p1, m), m);
    SplitMem2Bits(p1.raw, p2.raw, m.raw);
  }

  lemma SplitMem2Bits(p1: bv32, p2: bv32, m: bv32)
    requires SplitsAtBits(p1, p2, m)
    ensures !NotMemBits(p2, MakePrefixBits(p1, m), m)
  {
  }

  /** ...and the two fall on opposite sides of the splitting mask. */
  lemma SplitOpposite(p1: Word, p2: Word, m: Word)
    requires SplitsAt(p1, p2, m)
    ensures Left(p1, m) != Left(p2, m)
  {
    SplitsAtDef(p1, p2, m);
    LeftDef(p1, m);
    LeftDef(p2, m);
    SplitOppositeBits(p1.raw, p2.raw, m.raw);
  }

  lemma SplitOppositeBits(p1: bv32, p2: bv32, m: bv32)
    requires SplitsAtBits(p1, p2, m)
    ensures LeftBits(p1, m) != LeftBits(p2, m)
  {
  }

  /** A key agreeing with a prefix `p` above a less significant mask `m2`,
      where `p` agrees with `q` above the more significant mask `m1`, agrees
      with `q` above `m1` too... */
  lemma WidenMem(x: Word, p: Word, m2: Word, q: Word, m1: Word)
    requires IsMask(m1) && IsMask(m2) && Below(m2, m1)
    requires !NotMem(x, p, m2) && !NotMem(p, q, m1)
    ensures !NotMem(x, q, m1)
  {
    IsMaskDef(m1);
    IsMaskDef(m2);
    BelowDef(m2, m1);
    NotMemDef(x, p, m2);
    NotMemDef(p, q, m1);
    NotMemDef(x, q, m1);
    WidenMemBits(x.raw, p.raw, m2.raw, q.raw, m1.raw);
  }

  lemma WidenMemBits(x: bv32, p: bv32, m2: bv32, q: bv32, m1: bv32)
    requires IsMaskBits(m1) && IsMaskBits(m2) && m2 < m1
    requires !NotMemBits(x, p, m2) && !NotMemBits(p, q, m1)
    ensures !NotMemBits(x, q, m1)
  {
  }

  /** ...and lies on `p`'s side of `m1`. */
  lemma WidenSide(x: Word, p: Word, m2: Word, m1: Word)
    requires IsMask(m1) && IsMask(m2) && Below(m2, m1)
    requires !NotMem(x, p, m2)
    ensures Left(x, m1) == Left(p, m1)
  {
    IsMaskDef(m1);
    IsMaskDef(m2);
    BelowDef(m2, m1);
    NotMemDef(x, p, m2);
    LeftDef(x, m1);
    LeftDef(p, m1);
    WidenSideBits(x.raw, p.raw, m2.raw, m1.raw);
  }

  lemma WidenSideBits(x: bv32, p: bv32, m2: bv32, m1: bv32)
    requires IsMaskBits(m1) && IsMaskBits(m2) && m2 < m1
    requires !NotMemBits(x, p, m2)
    ensures LeftBits(x, m1) == LeftBits(p, m1)
  {
  }

  /** Two keys agreeing with one prefix above the mask agree with each
      other there: `NotMem` against either gives the same answer. */
  lemma SameSideMem(k: Word, x: Word, p: Word, m: Word)
    requires !NotMem(x, p, m)
    ensures NotMem(k, p, m) == NotMem(k, MakePrefix(x, m), m)
  {
    NotMemDef(x, p, m);
    NotMemDef(k, p, m);
    MakePrefixDef(x, m);
    NotMemDef(k, MakePrefix(x, m), m);
    SameSideMemBits(k.raw, x.raw, p.raw, m.raw);
  }

  lemma SameSideMemBits(k: bv32, x: bv32, p: bv32, m: bv32)
    requires !NotMemBits(x, p, m)
    ensures NotMemBits(k, p, m) == NotMemBits(k, MakePrefixBits(x, m), m)
  {
  }

  /** Cutting a key below a less significant mask `n` keeps its agreement
      with a prefix above the mask `m`... */
  lemma CutMem(k: Word, p: Word, m: Word, n: Word)
    requires IsMask(m) && IsMask(n) && Below(n, m)
    requires !NotMem(k, p, m)
    ensures !NotMem(MakePrefix(k, n), p, m)
  {
    IsMaskDef(m);
    IsMaskDef(n);
    BelowDef(n, m);
    NotMemDef(k, p, m);
    MakePrefixDef(k, n);
    NotMemDef(MakePrefix(k, n), p, m);
    CutMemBits(k.raw, p.raw, m.raw, n.raw);
  }

  lemma CutMemBits(k: bv32, p: bv32, m: bv32, n: bv32)
    requires IsMaskBits(m) && IsMaskBits(n) && n < m
    requires !NotMemBits(k, p, m)
    ensures !NotMemBits(MakePrefixBits(k, n), p, m)
  {
  }

  /** ...and its side of `m`. */
  lemma CutSide(k: Word, m: Word, n: Word)
    requires IsMask(m) && IsMask(n) && Below(n, m)
    ensures Left(MakePrefix(k, n), m) == Left(k, m)
  {
    IsMaskDef(m);
    IsMaskDef(n);
    BelowDef(n, m);
    MakePrefixDef(k, n);
    LeftDef(MakePrefix(k, n), m);
    LeftDef(k, m);
    CutSideBits(k.raw, m.raw, n.raw);
  }

  lemma CutSideBits(k: bv32, m: bv32, n: bv32)
    requires IsMaskBits(m) && IsMaskBits(n) && n < m
    ensures LeftBits(MakePrefixBits(k, n), m) == LeftBits(k, m)
  {
  }
}
