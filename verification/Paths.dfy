/** Inclusion paths: side bits, the fold of a witness to a root, completeness and binding. */
module Paths {
  import opened Arithmetic
  import opened FullTree
  import opened Words

  // ---------------------------------------------------------------- side bits

  /** One bit per level: true where the node above leaf `index` is a left child. */
  function Sides(index: nat, depth: nat): (isLeft: seq<bool>)
    ensures |isLeft| == depth
    ensures forall level :: 0 <= level < depth ==> isLeft[level] == (Shift(index, level) % 2 == 0)
  {
    if depth == 0 then [] else Sides(index, depth - 1) + [Shift(index, depth - 1) % 2 == 0]
  }

  /** The position side bits stand for: 2^level for every level whose bit says "right". */
  function IndexOf(isLeft: seq<bool>): nat
  {
    if isLeft == [] then 0
    else
      var top := |isLeft| - 1;
      IndexOf(isLeft[..top]) + (if isLeft[top] then 0 else Pow2(top))
  }

  /** Summing the right-hand levels gives the leaf index modulo the number of leaves. */
  lemma {:induction false} SidesEncodeIndex(index: nat, depth: nat)
    ensures IndexOf(Sides(index, depth)) == index % Pow2(depth)
  {
    if depth > 0 {
      SidesEncodeIndex(index, depth - 1);
      assert Sides(index, depth)[..depth - 1] == Sides(index, depth - 1);
      RemainderGrows(index, depth - 1);
    }
  }

  lemma IndexOfSides(index: nat, depth: nat)
    requires index < Pow2(depth)
    ensures IndexOf(Sides(index, depth)) == index
  {
    SidesEncodeIndex(index, depth);
    DivisionIsUnique(index, Pow2(depth), 0, index);
  }

  lemma {:induction false} IndexBelow(isLeft: seq<bool>)
    ensures IndexOf(isLeft) < Pow2(|isLeft|)
  {
    if isLeft != [] {
      IndexBelow(isLeft[..|isLeft| - 1]);
    }
  }

  /** Side bits are determined by the position they stand for. */
  lemma {:induction false} IndexIsUnique(a: seq<bool>, b: seq<bool>)
    requires |a| == |b| && IndexOf(a) == IndexOf(b)
    ensures a == b
  {
    if a != [] {
      var top := |a| - 1;
      IndexBelow(a[..top]);
      IndexBelow(b[..top]);
      assert a[top] == b[top];
      IndexIsUnique(a[..top], b[..top]);
      assert a == a[..top] + [a[top]] && b == b[..top] + [b[top]];
    }
  }

  lemma SidesOfIndex(isLeft: seq<bool>)
    ensures Sides(IndexOf(isLeft), |isLeft|) == isLeft
  {
    var i := IndexOf(isLeft);
    IndexBelow(isLeft);
    DivisionIsUnique(i, Pow2(|isLeft|), 0, i);
    SidesEncodeIndex(i, |isLeft|);
    IndexIsUnique(isLeft, Sides(i, |isLeft|));
  }

  // --------------------------------------------------------------------- fold

  /** One level of the witness walk. */
  function Join<T>(pair: (T, T) -> T, current: T, sibling: T, isLeft: bool): T
  {
    if isLeft then pair(current, sibling) else pair(sibling, current)
  }

  /** The root a leaf and its siblings lead to, from the bottom up. */
  function Fold<T>(pair: (T, T) -> T, leaf: T, path: seq<T>, isLeft: seq<bool>): T
    requires |path| == |isLeft|
  {
    if path == [] then leaf
    else
      var top := |path| - 1;
      Join(pair, Fold(pair, leaf, path[..top], isLeft[..top]), path[top], isLeft[top])
  }

  /** The prover's own check of its witness; unequal lengths are a value error. */
  method MerkleRootFromPath<T>(pair: (T, T) -> T, leaf: T, path: seq<T>, isLeft: seq<bool>)
    returns (r: Option<T>)
    ensures r.Some? <==> |path| == |isLeft|
    ensures r.Some? ==> r.value == Fold(pair, leaf, path, isLeft)
  {
    if |path| != |isLeft| {
      return None;
    }
    var current := leaf;
    for i := 0 to |path|
      invariant current == Fold(pair, leaf, path[..i], isLeft[..i])
    {
      assert path[..i + 1][..i] == path[..i] && isLeft[..i + 1][..i] == isLeft[..i];
      if isLeft[i] {
        current := pair(current, path[i]);
      } else {
        current := pair(path[i], current);
      }
    }
    assert path[..|path|] == path && isLeft[..|path|] == isLeft;
    return Some(current);
  }

  // ------------------------------------------------------------- completeness

  /** The sibling of the node above leaf `index` at a level. */
  ghost function Sibling<T>(H: Hashing<T>, leaves: seq<T>, index: nat, level: nat): T
  {
    var k := Shift(index, level);
    if k % 2 == 0 then Node(H, leaves, level, k + 1) else Node(H, leaves, level, k - 1)
  }

  ghost function OpeningPath<T>(H: Hashing<T>, leaves: seq<T>, index: nat, depth: nat): (path: seq<T>)
    ensures |path| == depth
    ensures forall level :: 0 <= level < depth ==> path[level] == Sibling(H, leaves, index, level)
  {
    if depth == 0 then [] else OpeningPath(H, leaves, index, depth - 1) + [Sibling(H, leaves, index, depth - 1)]
  }

  /** Every leaf's siblings fold back to the node above it. */
  lemma {:induction false} PathOpensNode<T>(H: Hashing<T>, leaves: seq<T>, index: nat, depth: nat)
    requires index < |leaves|
    ensures Fold(H.pair, leaves[index], OpeningPath(H, leaves, index, depth), Sides(index, depth))
         == Node(H, leaves, depth, Shift(index, depth))
  {
    if depth > 0 {
      var below := depth - 1;
      PathOpensNode(H, leaves, index, below);
      assert OpeningPath(H, leaves, index, depth)[..below] == OpeningPath(H, leaves, index, below);
      assert Sides(index, depth)[..below] == Sides(index, below);
      var k := Shift(index, below);
      WidthIsShift(|leaves|, depth);
      ShiftMonotone(index, |leaves| - 1, depth);
      assert 2 * (k / 2) == k || 2 * (k / 2) + 1 == k;
    }
  }

  /** Completeness: in any tree that holds it, a leaf's path opens the root. */
  lemma PathOpensRoot<T>(H: Hashing<T>, leaves: seq<T>, index: nat, depth: nat)
    requires index < |leaves| <= Pow2(depth)
    ensures Fold(H.pair, leaves[index], OpeningPath(H, leaves, index, depth), Sides(index, depth))
         == Root(H, depth, leaves)
  {
    PathOpensNode(H, leaves, index, depth);
    ShiftVanishes(index, depth);
  }

  // ------------------------------------------------------------------ binding

  /** Two openings of one root along the same sides are the same opening. */
  lemma {:induction false} OpeningsAgree<T(!new)>(pair: (T, T) -> T, leaf: T, path: seq<T>, leaf': T, path': seq<T>,
                                                  isLeft: seq<bool>)
    requires Injective(pair) && |path| == |path'| == |isLeft|
    ensures Fold(pair, leaf, path, isLeft) == Fold(pair, leaf', path', isLeft) <==> leaf == leaf' && path == path'
  {
    if path != [] {
      var top := |path| - 1;
      OpeningsAgree(pair, leaf, path[..top], leaf', path'[..top], isLeft[..top]);
      assert path == path[..top] + [path[top]] && path' == path'[..top] + [path'[top]];
    }
  }

  /** Only the leaf that is there opens at a position, and only with the siblings that are there. */
  lemma OpeningIsLeaf<T(!new)>(pair: (T, T) -> T, zero: T, depth: nat, leaves: seq<T>, leaf: T, path: seq<T>,
                               isLeft: seq<bool>)
    requires Injective(pair) && |path| == |isLeft| == depth && |leaves| <= Pow2(depth)
    ensures var i := IndexOf(isLeft);
      i < Pow2(depth) &&
      (Fold(pair, leaf, path, isLeft) == Root(ZeroHashing(pair, zero), depth, leaves) <==>
        leaf == Pad(leaves, Pow2(depth), zero)[i] &&
        path == OpeningPath(ZeroHashing(pair, zero), Pad(leaves, Pow2(depth), zero), i, depth))
  {
    var i := IndexOf(isLeft);
    var all := Pad(leaves, Pow2(depth), zero);
    var H := ZeroHashing(pair, zero);
    IndexBelow(isLeft);
    SidesOfIndex(isLeft);
    PathOpensRoot(H, all, i, depth);
    PaddingKeepsRoot(pair, zero, depth, leaves);
    OpeningsAgree(pair, leaf, path, all[i], OpeningPath(H, all, i, depth), isLeft);
  }

  lemma PaddingKeepsRoot<T>(pair: (T, T) -> T, zero: T, depth: nat, leaves: seq<T>)
    requires |leaves| <= Pow2(depth)
    ensures Root(ZeroHashing(pair, zero), depth, Pad(leaves, Pow2(depth), zero))
         == Root(ZeroHashing(pair, zero), depth, leaves)
  {
    var all := Pad(leaves, Pow2(depth), zero);
    RootIsPlainRoot(pair, zero, depth, leaves);
    RootIsPlainRoot(pair, zero, depth, all);
    assert Pad(all, Pow2(depth), zero) == all;
  }

  /** Trees of nonzero leaves with different numbers of leaves have different roots. */
  lemma LongerTreeDiffers<T(!new)>(pair: (T, T) -> T, zero: T, depth: nat, leaves: seq<T>, longer: seq<T>)
    requires Injective(pair) && |leaves| < |longer| <= Pow2(depth) && longer[|leaves|] != zero
    ensures Root(ZeroHashing(pair, zero), depth, leaves) != Root(ZeroHashing(pair, zero), depth, longer)
  {
    var i := |leaves|;
    var path := OpeningPath(ZeroHashing(pair, zero), longer, i, depth);
    PathOpensRoot(ZeroHashing(pair, zero), longer, i, depth);
    IndexOfSides(i, depth);
    OpeningIsLeaf(pair, zero, depth, leaves, longer[i], path, Sides(i, depth));
  }

  /** A leaf opened under some root is still that leaf after all later insertions. */
  lemma OpenedLeafStays<T(!new)>(pair: (T, T) -> T, zero: T, depth: nat, leaves: seq<T>, more: seq<T>,
                                 leaf: T, path: seq<T>, isLeft: seq<bool>)
    requires Injective(pair) && |path| == |isLeft| == depth && |leaves + more| <= Pow2(depth)
    requires Fold(pair, leaf, path, isLeft) == Root(ZeroHashing(pair, zero), depth, leaves)
    requires leaf != zero
    ensures IndexOf(isLeft) < |leaves| && (leaves + more)[IndexOf(isLeft)] == leaves[IndexOf(isLeft)] == leaf
  {
    OpeningIsLeaf(pair, zero, depth, leaves, leaf, path, isLeft);
  }
}
