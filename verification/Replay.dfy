/** anonymity.py, get_merkle_path: leaf list with gap padding, insertion replay, siblings and side bits. */
module Replay {
  import opened Arithmetic
  import opened FullTree
  import opened IncrementalTree
  import opened Paths
  import opened Words

  /** A stored commitment row: its tree position and its decoded leaf. */
  datatype Row<T> = Row(index: nat, leaf: T)

  datatype Source = FallbackEmpty | Reconstructed

  datatype PathResponse<T> = PathResponse(siblings: seq<T>, isLeft: seq<bool>, source: Source)

  datatype LookupError = LeafNotFound

  /** The hashing of the replay: zero stands for an empty subtree at every level. */
  ghost function FlatHashing<T>(pair: (T, T) -> T, zero: T): Hashing<T>
  {
    Hashing(pair, (level: nat) => zero)
  }

  // -------------------------------------------------------------- the two rules

  /** The documented sibling: empty if the node is on the left, the cached subtree if it is on the right. */
  ghost function DocumentedSibling<T>(H: Hashing<T>, before: seq<T>, level: nat): T
  {
    if Shift(|before|, level) % 2 == 0 then H.empty(level) else FilledAt(H, before, level)
  }

  /** The sibling as line 175 picks it, with the two operands the other way round. */
  ghost function WrittenSibling<T>(H: Hashing<T>, before: seq<T>, level: nat): T
  {
    if Shift(|before|, level) % 2 == 0 then FilledAt(H, before, level) else H.empty(level)
  }

  ghost function DocumentedPath<T>(H: Hashing<T>, before: seq<T>, depth: nat): (path: seq<T>)
    ensures |path| == depth
    ensures forall level :: 0 <= level < depth ==> path[level] == DocumentedSibling(H, before, level)
  {
    if depth == 0 then [] else DocumentedPath(H, before, depth - 1) + [DocumentedSibling(H, before, depth - 1)]
  }

  ghost function WrittenPath<T>(H: Hashing<T>, before: seq<T>, depth: nat): (path: seq<T>)
    ensures |path| == depth
    ensures forall level :: 0 <= level < depth ==> path[level] == WrittenSibling(H, before, level)
  {
    if depth == 0 then [] else WrittenPath(H, before, depth - 1) + [WrittenSibling(H, before, depth - 1)]
  }

  /** The documented rule records the true siblings at the moment the leaf goes in. */
  lemma DocumentedPathIsOpening<T>(H: Hashing<T>, before: seq<T>, leaf: T, depth: nat)
    ensures DocumentedPath(H, before, depth) == OpeningPath(H, before + [leaf], |before|, depth)
  {
    forall level | 0 <= level < depth
      ensures DocumentedSibling(H, before, level) == Sibling(H, before + [leaf], |before|, level)
    {
      WidthIsShift(|before| + 1, level);
      if Shift(|before|, level) % 2 == 1 {
        FilledAtSetBit(H, before, level);
      }
    }
  }

  /** The documented path folds to the root reached right after its leaf, for any empty values. */
  lemma DocumentedPathOpens<T>(H: Hashing<T>, before: seq<T>, leaf: T, depth: nat)
    ensures Fold(H.pair, leaf, DocumentedPath(H, before, depth), Sides(|before|, depth))
         == Node(H, before + [leaf], depth, Shift(|before|, depth))
    ensures |before| < Pow2(depth) ==>
      Fold(H.pair, leaf, DocumentedPath(H, before, depth), Sides(|before|, depth)) == Root(H, depth, before + [leaf])
  {
    DocumentedPathIsOpening(H, before, leaf, depth);
    PathOpensNode(H, before + [leaf], |before|, depth);
    ShiftVanishes(|before|, depth);
  }

  /** The written path folds to that root exactly when every cached sibling is still the empty value. */
  lemma WrittenPathOpensIffCacheEmpty<T(!new)>(H: Hashing<T>, before: seq<T>, leaf: T, depth: nat)
    requires Injective(H.pair)
    ensures Fold(H.pair, leaf, WrittenPath(H, before, depth), Sides(|before|, depth))
         == Node(H, before + [leaf], depth, Shift(|before|, depth))
       <==> forall level :: 0 <= level < depth ==> FilledAt(H, before, level) == H.empty(level)
  {
    DocumentedPathOpens(H, before, leaf, depth);
    OpeningsAgree(H.pair, leaf, WrittenPath(H, before, depth),
                  leaf, DocumentedPath(H, before, depth), Sides(|before|, depth));
    RulesAgreeIffCacheEmpty(H, before, depth);
  }

  lemma RulesAgreeIffCacheEmpty<T>(H: Hashing<T>, before: seq<T>, depth: nat)
    ensures WrittenPath(H, before, depth) == DocumentedPath(H, before, depth)
       <==> forall level :: 0 <= level < depth ==> FilledAt(H, before, level) == H.empty(level)
  {
  }

  /** With a hash that never yields the zero word, the written path is right for the first leaf only. */
  lemma WrittenPathOpensIffFirst<T(!new)>(pair: (T, T) -> T, zero: T, before: seq<T>, leaf: T, depth: nat)
    requires Injective(pair) && (forall a, b :: pair(a, b) != zero) && depth >= 2
    ensures var H := FlatHashing(pair, zero);
      Fold(pair, leaf, WrittenPath(H, before, depth), Sides(|before|, depth))
        == Node(H, before + [leaf], depth, Shift(|before|, depth))
      <==> before == []
  {
    var H := FlatHashing(pair, zero);
    WrittenPathOpensIffCacheEmpty(H, before, leaf, depth);
    CacheEmptyIffFirst(pair, zero, before, depth);
  }

  lemma CacheEmptyIffFirst<T(!new)>(pair: (T, T) -> T, zero: T, before: seq<T>, depth: nat)
    requires (forall a, b :: pair(a, b) != zero) && depth >= 2
    ensures before == [] <==>
      forall level :: 0 <= level < depth ==> FilledAt(FlatHashing(pair, zero), before, level) == zero
  {
    if before != [] {
      WidthIsShift(|before|, 1);
      var k := Shift(|before| - 1, 1);
      assert FilledAt(FlatHashing(pair, zero), before, 1) != zero;
    }
  }

  /** A tree of two leaves where the written branch does not fold and the documented one does. */
  lemma WrittenPathCounterexample()
    ensures var H := FlatHashing((a, b) => Pair(a, b), Word(0));
      var root := Root(H, 2, [Word(1), Word(2)]);
      && Fold(H.pair, Word(2), WrittenPath(H, [Word(1)], 2), Sides(1, 2)) != root
      && Fold(H.pair, Word(2), DocumentedPath(H, [Word(1)], 2), Sides(1, 2)) == root
  {
    var pair := (a: Term, b: Term) => Pair(a, b);
    var H := FlatHashing(pair, Word(0));
    assert [Word(1)] + [Word(2)] == [Word(1), Word(2)];
    ShiftVanishes(1, 2);
    WrittenPathOpensIffFirst(pair, Word(0), [Word(1)], Word(2), 2);
    DocumentedPathOpens(H, [Word(1)], Word(2), 2);
  }

  // ----------------------------------------------------- against the pool's root

  /** A complete subtree has no empty part, so its root does not depend on the empty values. */
  lemma {:induction false} CompleteNodeIgnoresEmpty<T>(H: Hashing<T>, G: Hashing<T>, leaves: seq<T>, level: nat, k: nat)
    requires H.pair == G.pair && k < Shift(|leaves|, level)
    ensures Node(H, leaves, level, k) == Node(G, leaves, level, k)
  {
    WidthIsShift(|leaves|, level);
    if level > 0 {
      CompleteNodeIgnoresEmpty(H, G, leaves, level - 1, 2 * k);
      CompleteNodeIgnoresEmpty(H, G, leaves, level - 1, 2 * k + 1);
    }
  }

  /** All levels above the leaves are odd for the last two indices only, and even for the first two only. */
  lemma {:induction false} OddOrEvenAbove(n: nat, depth: nat)
    requires depth > 0
    ensures (forall level :: 1 <= level < depth ==> Shift(n, level) % 2 == 1) <==> n % Pow2(depth) + 2 >= Pow2(depth)
    ensures (forall level :: 1 <= level < depth ==> Shift(n, level) % 2 == 0) <==> n % Pow2(depth) < 2
  {
    if depth == 1 {
      assert Pow2(1) == 2;
    } else {
      var below := depth - 1;
      OddOrEvenAbove(n, below);
      RemainderGrows(n, below);
      assert Pow2(depth) == 2 * Pow2(below) && Pow2(below) == 2 * Pow2(below - 1);
      assert (forall level :: 1 <= level < depth ==> Shift(n, level) % 2 == 1) <==>
        (forall level :: 1 <= level < below ==> Shift(n, level) % 2 == 1) && Shift(n, below) % 2 == 1;
      assert (forall level :: 1 <= level < depth ==> Shift(n, level) % 2 == 0) <==>
        (forall level :: 1 <= level < below ==> Shift(n, level) % 2 == 0) && Shift(n, below) % 2 == 0;
    }
  }

  /** A path folds to the root the program computes after its leaf exactly when it holds that tree's siblings. */
  lemma OpensPoolIff<T(!new)>(pair: (T, T) -> T, zero: T, before: seq<T>, leaf: T, path: seq<T>, depth: nat)
    requires Injective(pair) && |before| < Pow2(depth) && |path| == depth
    ensures var P := ZeroHashing(pair, zero);
      Fold(pair, leaf, path, Sides(|before|, depth)) == Root(P, depth, before + [leaf])
      <==> forall level :: 0 <= level < depth ==> path[level] == DocumentedSibling(P, before, level)
  {
    var P := ZeroHashing(pair, zero);
    DocumentedPathOpens(P, before, leaf, depth);
    OpeningsAgree(pair, leaf, path, leaf, DocumentedPath(P, before, depth), Sides(|before|, depth));
  }

  /** The documented sibling is the pool's, except for an empty one above the leaves. */
  lemma DocumentedSiblingIsPools<T(!new)>(pair: (T, T) -> T, zero: T, before: seq<T>, level: nat)
    requires forall a, b :: pair(a, b) != zero
    ensures DocumentedSibling(FlatHashing(pair, zero), before, level)
         == DocumentedSibling(ZeroHashing(pair, zero), before, level)
      <==> level == 0 || Shift(|before|, level) % 2 == 1
  {
    var F, P := FlatHashing(pair, zero), ZeroHashing(pair, zero);
    if Shift(|before|, level) % 2 == 1 {
      FilledAtSetBit(F, before, level);
      FilledAtSetBit(P, before, level);
      CompleteNodeIgnoresEmpty(F, P, before, level, Shift(|before|, level) - 1);
    }
  }

  lemma DocumentedRulesAgreeIffLast<T(!new)>(pair: (T, T) -> T, zero: T, before: seq<T>, depth: nat)
    requires (forall a, b :: pair(a, b) != zero) && |before| < Pow2(depth) && depth > 0
    ensures var F, P := FlatHashing(pair, zero), ZeroHashing(pair, zero);
      (forall level :: 0 <= level < depth ==>
         DocumentedSibling(F, before, level) == DocumentedSibling(P, before, level))
      <==> |before| + 2 >= Pow2(depth)
  {
    var F, P := FlatHashing(pair, zero), ZeroHashing(pair, zero);
    OddOrEvenAbove(|before|, depth);
    DivisionIsUnique(|before|, Pow2(depth), 0, |before|);
    if forall level :: 0 <= level < depth ==>
         DocumentedSibling(F, before, level) == DocumentedSibling(P, before, level) {
      forall level | 1 <= level < depth ensures Shift(|before|, level) % 2 == 1 {
        DocumentedSiblingIsPools(pair, zero, before, level);
      }
    }
    if |before| + 2 >= Pow2(depth) {
      forall level | 0 <= level < depth
        ensures DocumentedSibling(F, before, level) == DocumentedSibling(P, before, level)
      {
        DocumentedSiblingIsPools(pair, zero, before, level);
      }
    }
  }

  /** With the replay's zeros the documented path opens the pool's root for the last two leaves only. */
  lemma DocumentedPathOpensPoolIffLast<T(!new)>(pair: (T, T) -> T, zero: T, before: seq<T>, leaf: T, depth: nat)
    requires Injective(pair) && (forall a, b :: pair(a, b) != zero)
    requires |before| < Pow2(depth) && depth > 0
    ensures Fold(pair, leaf, DocumentedPath(FlatHashing(pair, zero), before, depth), Sides(|before|, depth))
         == Root(ZeroHashing(pair, zero), depth, before + [leaf])
      <==> |before| + 2 >= Pow2(depth)
  {
    OpensPoolIff(pair, zero, before, leaf, DocumentedPath(FlatHashing(pair, zero), before, depth), depth);
    DocumentedRulesAgreeIffLast(pair, zero, before, depth);
  }

  lemma FirstTwoLeaves<T(!new)>(pair: (T, T) -> T, zero: T, before: seq<T>, depth: nat)
    requires Injective(pair) && (forall a, b :: pair(a, b) != zero) && |before| < 2 <= depth
    ensures var F, P := FlatHashing(pair, zero), ZeroHashing(pair, zero);
      (forall level :: 0 <= level < depth ==> WrittenSibling(F, before, level) == DocumentedSibling(P, before, level))
      <==> depth == 2 && before == [zero]
  {
    var F, P := FlatHashing(pair, zero), ZeroHashing(pair, zero);
    if before == [] {
      assert WrittenSibling(F, before, 1) == zero && DocumentedSibling(P, before, 1) == pair(zero, zero);
    } else {
      var b := before[0];
      assert before == [b];
      assert WrittenSibling(F, before, 0) == zero && DocumentedSibling(P, before, 0) == b;
      assert Node(F, before, 1, 0) == pair(b, zero);
      assert WrittenSibling(F, before, 1) == pair(b, zero) && DocumentedSibling(P, before, 1) == pair(zero, zero);
      if depth > 2 {
        assert Node(F, before, 2, 0) == pair(pair(b, zero), zero);
        assert ZeroAt(pair, zero, 2) == pair(pair(zero, zero), pair(zero, zero));
        assert Shift(1, 2) == 0 && Shift(0, 2) == 0;
        assert WrittenSibling(F, before, 2) != DocumentedSibling(P, before, 2);
      }
    }
  }

  lemma WrittenRulesAgreeIff<T(!new)>(pair: (T, T) -> T, zero: T, before: seq<T>, depth: nat)
    requires Injective(pair) && (forall a, b :: pair(a, b) != zero)
    requires |before| < Pow2(depth) && depth >= 2
    ensures var F, P := FlatHashing(pair, zero), ZeroHashing(pair, zero);
      (forall level :: 0 <= level < depth ==> WrittenSibling(F, before, level) == DocumentedSibling(P, before, level))
      <==> depth == 2 && before == [zero]
  {
    var F, P := FlatHashing(pair, zero), ZeroHashing(pair, zero);
    if forall level :: 0 <= level < depth ==> WrittenSibling(F, before, level) == DocumentedSibling(P, before, level) {
      forall level | 1 <= level < depth ensures Shift(|before|, level) % 2 == 0 {
        assert WrittenSibling(F, before, level) == DocumentedSibling(P, before, level);
        if Shift(|before|, level) % 2 == 1 {
          FilledAtSetBit(P, before, level);
        }
      }
      OddOrEvenAbove(|before|, depth);
      DivisionIsUnique(|before|, Pow2(depth), 0, |before|);
    }
    if |before| < 2 {
      FirstTwoLeaves(pair, zero, before, depth);
    }
  }

  /** The written path opens the pool's root for no leaf at all, but for one degenerate tree of depth two. */
  lemma WrittenPathOpensPoolIff<T(!new)>(pair: (T, T) -> T, zero: T, before: seq<T>, leaf: T, depth: nat)
    requires Injective(pair) && (forall a, b :: pair(a, b) != zero)
    requires |before| < Pow2(depth) && depth >= 2
    ensures Fold(pair, leaf, WrittenPath(FlatHashing(pair, zero), before, depth), Sides(|before|, depth))
         == Root(ZeroHashing(pair, zero), depth, before + [leaf])
      <==> depth == 2 && before == [zero]
  {
    OpensPoolIff(pair, zero, before, leaf, WrittenPath(FlatHashing(pair, zero), before, depth), depth);
    WrittenRulesAgreeIff(pair, zero, before, depth);
  }

  // ------------------------------------------------------------ the fallback path

  /** What the endpoint answers when nothing is stored: zero at every level. */
  function ZeroPath<T>(zero: T, depth: nat): (path: seq<T>)
    ensures |path| == depth && forall level :: 0 <= level < depth ==> path[level] == zero
  {
    seq(depth, _ => zero)
  }

  /** The whole fallback answer for a leaf index. */
  function FallbackAnswer<T>(zero: T, depth: nat, leafIndex: nat): PathResponse<T>
  {
    PathResponse(ZeroPath(zero, depth), Sides(leafIndex, depth), FallbackEmpty)
  }

  /** Above the leaves no sibling in the pool's tree is the zero word. */
  lemma PoolSiblingIsNotZero<T(!new)>(pair: (T, T) -> T, zero: T, before: seq<T>, level: nat)
    requires (forall a, b :: pair(a, b) != zero) && level > 0
    ensures DocumentedSibling(ZeroHashing(pair, zero), before, level) != zero
  {
    if Shift(|before|, level) % 2 == 1 {
      FilledAtSetBit(ZeroHashing(pair, zero), before, level);
      WidthIsShift(|before|, level);
    }
  }

  /** For no leaf index does the fallback answer open the root the program holds after that leaf. */
  lemma FallbackNeverOpensPool<T(!new)>(pair: (T, T) -> T, zero: T, before: seq<T>, leaf: T, depth: nat)
    requires Injective(pair) && (forall a, b :: pair(a, b) != zero)
    requires |before| < Pow2(depth) && depth >= 2
    ensures var answer := FallbackAnswer(zero, depth, |before|);
      Fold(pair, leaf, answer.siblings, answer.isLeft) != Root(ZeroHashing(pair, zero), depth, before + [leaf])
  {
    OpensPoolIff(pair, zero, before, leaf, ZeroPath(zero, depth), depth);
    PoolSiblingIsNotZero(pair, zero, before, 1);
  }

  lemma ZeroSiblingsIff<T(!new)>(pair: (T, T) -> T, zero: T, before: seq<T>, depth: nat)
    requires (forall a, b :: pair(a, b) != zero) && |before| < Pow2(depth) && depth > 0
    ensures (forall level :: 0 <= level < depth ==> DocumentedSibling(FlatHashing(pair, zero), before, level) == zero)
      <==> before == [] || before == [zero]
  {
    var F := FlatHashing(pair, zero);
    OddOrEvenAbove(|before|, depth);
    DivisionIsUnique(|before|, Pow2(depth), 0, |before|);
    if forall level :: 0 <= level < depth ==> DocumentedSibling(F, before, level) == zero {
      forall level | 1 <= level < depth ensures Shift(|before|, level) % 2 == 0 {
        assert DocumentedSibling(F, before, level) == zero;
        if Shift(|before|, level) % 2 == 1 {
          FilledAtSetBit(F, before, level);
          CompleteNodeIgnoresEmpty(F, ZeroHashing(pair, zero), before, level, Shift(|before|, level) - 1);
          PoolSiblingIsNotZero(pair, zero, before, level);
        }
      }
      assert DocumentedSibling(F, before, 0) == zero;
    }
    if |before| < 2 {
      forall level | 1 <= level < depth ensures DocumentedSibling(F, before, level) == zero {
        assert Shift(|before|, level) % 2 == 0;
      }
    }
  }

  /** Nor does it open the replay's own root, but for the first leaf, and the second one after a zero leaf. */
  lemma FallbackOpensReplayIff<T(!new)>(pair: (T, T) -> T, zero: T, before: seq<T>, leaf: T, depth: nat)
    requires Injective(pair) && (forall a, b :: pair(a, b) != zero)
    requires |before| < Pow2(depth) && depth > 0
    ensures var answer := FallbackAnswer(zero, depth, |before|);
      Fold(pair, leaf, answer.siblings, answer.isLeft) == Root(FlatHashing(pair, zero), depth, before + [leaf])
      <==> before == [] || before == [zero]
  {
    var F := FlatHashing(pair, zero);
    var path := DocumentedPath(F, before, depth);
    DocumentedPathOpens(F, before, leaf, depth);
    OpeningsAgree(pair, leaf, ZeroPath(zero, depth), leaf, path, Sides(|before|, depth));
    ZeroSiblingsIff(pair, zero, before, depth);
    assert path == ZeroPath(zero, depth) <==> forall level :: 0 <= level < depth ==> path[level] == zero;
  }

  // ------------------------------------------------------------------ the code

  /** What the sorted, bounded query on the uniquely indexed collection returns. */
  ghost predicate QueryResult<T>(rows: seq<Row<T>>, leafIndex: nat)
  {
    && (forall i, j :: 0 <= i < j < |rows| ==> rows[i].index < rows[j].index)
    && (forall i :: 0 <= i < |rows| ==> rows[i].index <= leafIndex)
  }

  /** Each stored leaf sits at its own index, and every gap before the last one is a zero leaf. */
  ghost predicate LaysOut<T>(leaves: seq<T>, rows: seq<Row<T>>, zero: T)
  {
    && |leaves| == (if rows == [] then 0 else rows[|rows| - 1].index + 1)
    && (forall i :: 0 <= i < |rows| ==> rows[i].index < |leaves| && leaves[rows[i].index] == rows[i].leaf)
    && (forall k :: 0 <= k < |leaves| && (forall i :: 0 <= i < |rows| ==> rows[i].index != k) ==> leaves[k] == zero)
  }

  method LoadLeaves<T>(zero: T, rows: seq<Row<T>>, leafIndex: nat) returns (commitments: seq<T>, foundTarget: bool)
    requires QueryResult(rows, leafIndex)
    ensures LaysOut(commitments, rows, zero)
    ensures foundTarget <==> exists i :: 0 <= i < |rows| && rows[i].index == leafIndex
    ensures foundTarget ==> |commitments| == leafIndex + 1
  {
    commitments, foundTarget := [], false;
    for n := 0 to |rows|
      invariant LaysOut(commitments, rows[..n], zero)
      invariant foundTarget <==> exists i :: 0 <= i < n && rows[i].index == leafIndex
    {
      var row := rows[n];
      ghost var packed := commitments;
      while |commitments| < row.index
        invariant |packed| <= |commitments| <= row.index
        invariant commitments[..|packed|] == packed
        invariant forall k :: |packed| <= k < |commitments| ==> commitments[k] == zero
      {
        commitments := commitments + [zero];
      }
      commitments := commitments + [row.leaf];
      if row.index == leafIndex {
        foundTarget := true;
      }
      assert rows[..n + 1] == rows[..n] + [row];
    }
    assert rows[..|rows|] == rows;
  }

  /** One replayed insertion; the requested leaf also records its siblings and sides. */
  method ReplayLeaf<T>(pair: (T, T) -> T, zero: T, depth: nat, ghost before: seq<T>, idx: nat, leaf: T,
                       filled: array<T>, isTarget: bool, targetPath: array<T>, targetIsLeft: array<bool>)
    requires idx == |before|
    requires filled.Length == targetPath.Length == targetIsLeft.Length == depth
    requires filled != targetPath && filled as object != targetIsLeft && targetPath as object != targetIsLeft
    requires filled[..] == Cache(FlatHashing(pair, zero), depth, before)
    modifies filled, targetPath, targetIsLeft
    ensures filled[..] == Cache(FlatHashing(pair, zero), depth, before + [leaf])
    ensures isTarget ==> targetPath[..] == WrittenPath(FlatHashing(pair, zero), before, depth)
    ensures isTarget ==> targetIsLeft[..] == Sides(idx, depth)
    ensures !isTarget ==> targetPath[..] == old(targetPath[..]) && targetIsLeft[..] == old(targetIsLeft[..])
  {
    ghost var H := FlatHashing(pair, zero);
    ghost var was, becomes := Cache(H, depth, before), Cache(H, depth, before + [leaf]);
    ghost var written, sides := WrittenPath(H, before, depth), Sides(idx, depth);
    var current := leaf;
    var indexAtLevel := idx;
    for level := 0 to depth
      invariant indexAtLevel == Shift(idx, level)
      invariant current == Node(H, before + [leaf], level, indexAtLevel)
      invariant forall l :: 0 <= l < depth ==> filled[l] == if l < level then becomes[l] else was[l]
      invariant isTarget ==> forall l :: 0 <= l < level ==>
        targetPath[l] == written[l] && targetIsLeft[l] == sides[l]
      invariant !isTarget ==> targetPath[..] == old(targetPath[..]) && targetIsLeft[..] == old(targetIsLeft[..])
    {
      var onLeft := indexAtLevel % 2 == 0;
      if isTarget {
        targetIsLeft[level] := onLeft;
        targetPath[level] := if onLeft then filled[level] else zero;
      }
      if onLeft {
        InsertOnLeft(H, before, leaf, level, indexAtLevel);
        filled[level] := current;
        current := pair(current, zero);
      } else {
        InsertOnRight(H, before, leaf, level, indexAtLevel);
        current := pair(filled[level], current);
      }
      indexAtLevel := indexAtLevel / 2;
    }
  }

  /** Replays the insertions one by one, keeping what was recorded at the requested leaf. */
  method ReplayAll<T>(pair: (T, T) -> T, zero: T, depth: nat, commitments: seq<T>, leafIndex: nat)
    returns (siblings: seq<T>, isLeft: seq<bool>)
    requires leafIndex < |commitments|
    ensures siblings == WrittenPath(FlatHashing(pair, zero), commitments[..leafIndex], depth)
    ensures isLeft == Sides(leafIndex, depth)
  {
    ghost var H := FlatHashing(pair, zero);
    var targetPath := new T[depth](_ => zero);
    var targetIsLeft := new bool[depth](_ => true);
    var filled := new T[depth](_ => zero);
    EmptyCache(H, depth);
    for idx := 0 to |commitments|
      invariant filled[..] == Cache(H, depth, commitments[..idx])
      invariant idx > leafIndex ==>
        targetPath[..] == WrittenPath(H, commitments[..leafIndex], depth) && targetIsLeft[..] == Sides(leafIndex, depth)
    {
      ReplayLeaf(pair, zero, depth, commitments[..idx], idx, commitments[idx],
                 filled, idx == leafIndex, targetPath, targetIsLeft);
      assert commitments[..idx + 1] == commitments[..idx] + [commitments[idx]];
    }
    return targetPath[..], targetIsLeft[..];
  }

  /** The endpoint: fall back on an empty collection, fail on a missing leaf, else replay up to the leaf. */
  method GetMerklePath<T>(pair: (T, T) -> T, zero: T, depth: nat, rows: seq<Row<T>>, leafIndex: nat)
    returns (r: Result<PathResponse<T>, LookupError>, ghost leaves: seq<T>)
    requires QueryResult(rows, leafIndex)
    ensures LaysOut(leaves, rows, zero)
    ensures rows == [] ==>
      && r == Ok(FallbackAnswer(zero, depth, leafIndex))
      && r.value.siblings == DocumentedPath(FlatHashing(pair, zero), [], depth)
    ensures rows != [] ==>
      (r.Ok? <==> exists i :: 0 <= i < |rows| && rows[i].index == leafIndex)
    ensures rows != [] && r.Ok? ==>
      && r.value.source == Reconstructed && |leaves| == leafIndex + 1
      && r.value.siblings == WrittenPath(FlatHashing(pair, zero), leaves[..leafIndex], depth)
    ensures r.Ok? ==>
      && r.value.isLeft == Sides(leafIndex, depth)
      && IndexOf(r.value.isLeft) == leafIndex % Pow2(depth)
  {
    var commitments, foundTarget := LoadLeaves(zero, rows, leafIndex);
    leaves := commitments;
    SidesEncodeIndex(leafIndex, depth);
    if commitments == [] {
      EmptyCache(FlatHashing(pair, zero), depth);
      return Ok(FallbackAnswer(zero, depth, leafIndex)), leaves;
    }
    if !foundTarget {
      return Err(LeafNotFound), leaves;
    }
    var siblings, isLeft := ReplayAll(pair, zero, depth, commitments, leafIndex);
    return Ok(PathResponse(siblings, isLeft, Reconstructed)), leaves;
  }

  /** Before the first leaf every cached sibling is the empty value. */
  lemma EmptyCache<T>(H: Hashing<T>, depth: nat)
    ensures forall level :: 0 <= level < depth ==> Cache(H, depth, [])[level] == H.empty(level)
    ensures forall level :: 0 <= level < depth ==> DocumentedPath(H, [], depth)[level] == H.empty(level)
  {
  }
}
