/** The Merkle tree as mathematics: the plain full tree, and the same tree with its empty part cut off. */
module FullTree {
  import opened Arithmetic

  /** The pair hash and, for each level, the value that stands for an empty subtree. */
  datatype Hashing<!T> = Hashing(pair: (T, T) -> T, empty: nat -> T)

  ghost predicate Injective<T(!new)>(pair: (T, T) -> T)
  {
    forall a, b, c, d :: pair(a, b) == pair(c, d) ==> a == c && b == d
  }

  /** Hash terms: the pair constructor is injective and never yields a plain word. */
  datatype Term = Word(id: nat) | Pair(left: Term, right: Term)

  // ---------------------------------------------------------------- reference

  /** The root of a full tree over exactly 2^depth leaves, by halves. */
  ghost function PlainRoot<T>(pair: (T, T) -> T, depth: nat, leaves: seq<T>): T
    requires |leaves| == Pow2(depth)
  {
    if depth == 0 then leaves[0]
    else
      var half := Pow2(depth - 1);
      pair(PlainRoot(pair, depth - 1, leaves[..half]), PlainRoot(pair, depth - 1, leaves[half..]))
  }

  /** `leaves` followed by as many `zero`s as fill `size` places. */
  ghost function Pad<T>(leaves: seq<T>, size: nat, zero: T): (r: seq<T>)
    requires |leaves| <= size
    ensures |r| == size
    ensures forall i :: 0 <= i < size ==> r[i] == if i < |leaves| then leaves[i] else zero
  {
    leaves + seq(size - |leaves|, _ => zero)
  }

  // ------------------------------------------------------------- by coordinates

  /** How many nodes of a level have a leaf below them. */
  ghost function Width(leaves: nat, level: nat): nat
  {
    if level == 0 then leaves else (Width(leaves, level - 1) + 1) / 2
  }

  /** The node at position `k` of `level`; a subtree without leaves has the level's empty value. */
  ghost function Node<T>(H: Hashing<T>, leaves: seq<T>, level: nat, k: nat): T
    decreases level
  {
    if k >= Width(|leaves|, level) then H.empty(level)
    else if level == 0 then leaves[k]
    else H.pair(Node(H, leaves, level - 1, 2 * k), Node(H, leaves, level - 1, 2 * k + 1))
  }

  ghost function Root<T>(H: Hashing<T>, depth: nat, leaves: seq<T>): T
  {
    Node(H, leaves, depth, 0)
  }

  lemma {:induction false} WidthIsShift(leaves: nat, level: nat)
    ensures Width(leaves, level) == if leaves == 0 then 0 else Shift(leaves - 1, level) + 1
    ensures Shift(leaves, level) <= Width(leaves, level) <= Shift(leaves, level) + 1
  {
    if level > 0 {
      WidthIsShift(leaves, level - 1);
    }
  }

  /** Appending leaves leaves every complete subtree as it was. */
  lemma {:induction false} CompleteNodeStays<T>(H: Hashing<T>, leaves: seq<T>, more: seq<T>, level: nat, k: nat)
    requires k < Shift(|leaves|, level)
    ensures Node(H, leaves + more, level, k) == Node(H, leaves, level, k)
  {
    WidthIsShift(|leaves|, level);
    WidthIsShift(|leaves + more|, level);
    ShiftMonotone(|leaves|, |leaves + more|, level);
    if level > 0 {
      CompleteNodeStays(H, leaves, more, level - 1, 2 * k);
      CompleteNodeStays(H, leaves, more, level - 1, 2 * k + 1);
    }
  }

  // ------------------------------------------------------------ zero subtrees

  /** The root of an all-zero subtree of the given height. */
  function ZeroAt<T>(pair: (T, T) -> T, zero: T, level: nat): T
  {
    if level == 0 then zero
    else var below := ZeroAt(pair, zero, level - 1); pair(below, below)
  }

  /** The hashing of the on-chain tree: an empty subtree is a subtree of zero leaves. */
  ghost function ZeroHashing<T>(pair: (T, T) -> T, zero: T): Hashing<T>
  {
    Hashing(pair, (level: nat) => ZeroAt(pair, zero, level))
  }

  /** The block of 2^level leaves under the node (level, k) of a full tree. */
  ghost predicate IsBlock<T>(all: seq<T>, level: nat, k: nat, block: seq<T>)
  {
    && |block| == Pow2(level)
    && k * Pow2(level) + Pow2(level) <= |all|
    && forall i :: 0 <= i < |block| ==> block[i] == all[k * Pow2(level) + i]
  }

  lemma HalvesAreBlocks<T>(all: seq<T>, level: nat, k: nat, block: seq<T>)
    requires IsBlock(all, level + 1, k, block)
    ensures IsBlock(all, level, 2 * k, block[..Pow2(level)])
    ensures IsBlock(all, level, 2 * k + 1, block[Pow2(level)..])
  {
    var p := Pow2(level);
    assert k * (2 * p) == 2 * k * p;
    assert (2 * k + 1) * p == 2 * k * p + p;
  }

  /** The node (level, k) is the plain root of the padded leaves below it. */
  lemma {:induction false} NodeIsPlainRoot<T>(pair: (T, T) -> T, zero: T, leaves: seq<T>, all: seq<T>,
                                              level: nat, k: nat, block: seq<T>)
    requires |leaves| <= |all| && all == Pad(leaves, |all|, zero)
    requires IsBlock(all, level, k, block)
    ensures Node(ZeroHashing(pair, zero), leaves, level, k) == PlainRoot(pair, level, block)
  {
    if level > 0 {
      var half := Pow2(level - 1);
      HalvesAreBlocks(all, level - 1, k, block);
      NodeIsPlainRoot(pair, zero, leaves, all, level - 1, 2 * k, block[..half]);
      NodeIsPlainRoot(pair, zero, leaves, all, level - 1, 2 * k + 1, block[half..]);
    }
  }

  /** Cutting off the empty part changes nothing: the root is that of the full tree with unused leaves zero. */
  lemma RootIsPlainRoot<T>(pair: (T, T) -> T, zero: T, depth: nat, leaves: seq<T>)
    requires |leaves| <= Pow2(depth)
    ensures Root(ZeroHashing(pair, zero), depth, leaves)
         == PlainRoot(pair, depth, Pad(leaves, Pow2(depth), zero))
  {
    var all := Pad(leaves, Pow2(depth), zero);
    NodeIsPlainRoot(pair, zero, leaves, all, depth, 0, all);
  }
}
