/** merkle.rs and the root window of state.rs: the incremental tree in place. */
module IncrementalTree {
  import opened Arithmetic
  import opened FullTree
  import opened Words

  const ROOT_HISTORY_SIZE: nat := 10

  // ------------------------------------------------ what the cache stands for

  /** The cached left sibling of a level: the last node written there as a left child. */
  ghost function FilledAt<T>(H: Hashing<T>, leaves: seq<T>, level: nat): T
  {
    if leaves == [] then H.empty(level)
    else var k := Shift(|leaves| - 1, level); Node(H, leaves, level, k - k % 2)
  }

  /** The whole cache: one left sibling per level. */
  ghost function Cache<T>(H: Hashing<T>, depth: nat, leaves: seq<T>): (cache: seq<T>)
    ensures |cache| == depth
    ensures forall level :: 0 <= level < depth ==> cache[level] == FilledAt(H, leaves, level)
  {
    seq(depth, level requires 0 <= level => FilledAt(H, leaves, level))
  }

  /** For a set bit of the count, the cache holds the root of the complete subtree before the next leaf. */
  lemma FilledAtSetBit<T>(H: Hashing<T>, leaves: seq<T>, level: nat)
    requires Shift(|leaves|, level) % 2 == 1
    ensures FilledAt(H, leaves, level) == Node(H, leaves, level, Shift(|leaves|, level) - 1)
    ensures forall more :: FilledAt(H, leaves, level) == Node(H, leaves + more, level, Shift(|leaves|, level) - 1)
  {
    WidthIsShift(|leaves|, level);
    forall more ensures FilledAt(H, leaves, level) == Node(H, leaves + more, level, Shift(|leaves|, level) - 1) {
      CompleteNodeStays(H, leaves, more, level, Shift(|leaves|, level) - 1);
    }
  }

  /** One level of an insertion from the left: the node is cached and hashed with the empty sibling. */
  lemma InsertOnLeft<T>(H: Hashing<T>, leaves: seq<T>, leaf: T, level: nat, k: nat)
    requires k == Shift(|leaves|, level) && k % 2 == 0
    ensures FilledAt(H, leaves + [leaf], level) == Node(H, leaves + [leaf], level, k)
    ensures Node(H, leaves + [leaf], level + 1, k / 2)
         == H.pair(Node(H, leaves + [leaf], level, k), H.empty(level))
  {
    WidthIsShift(|leaves| + 1, level);
    WidthIsShift(|leaves| + 1, level + 1);
    assert Node(H, leaves + [leaf], level, k + 1) == H.empty(level);
    assert 2 * (k / 2) == k;
  }

  /** One level of an insertion from the right: the cache stays, and is the left sibling. */
  lemma InsertOnRight<T>(H: Hashing<T>, leaves: seq<T>, leaf: T, level: nat, k: nat)
    requires k == Shift(|leaves|, level) && k % 2 == 1
    ensures FilledAt(H, leaves + [leaf], level) == FilledAt(H, leaves, level)
    ensures Node(H, leaves + [leaf], level + 1, k / 2)
         == H.pair(FilledAt(H, leaves, level), Node(H, leaves + [leaf], level, k))
  {
    WidthIsShift(|leaves| + 1, level + 1);
    FilledAtSetBit(H, leaves, level);
    assert 2 * (k / 2) == k - 1;
  }

  // ------------------------------------------------------------ the root ring

  /** What slot `slot` of the ring holds after the given deposits. */
  ghost function RingSlot<T>(H: Hashing<T>, depth: nat, leaves: seq<T>, slot: nat): T
  {
    var n := |leaves|;
    if slot >= n then (if slot == 0 then Root(H, depth, []) else H.empty(0))
    else Root(H, depth, leaves[..LastWrite(n, slot)])
  }

  /** The whole ring after the given deposits. */
  ghost function Ring<T>(H: Hashing<T>, depth: nat, leaves: seq<T>): (ring: seq<T>)
    ensures |ring| == ROOT_HISTORY_SIZE
    ensures forall slot :: 0 <= slot < ROOT_HISTORY_SIZE ==> ring[slot] == RingSlot(H, depth, leaves, slot)
  {
    seq(ROOT_HISTORY_SIZE, slot requires 0 <= slot => RingSlot(H, depth, leaves, slot))
  }

  /** The last deposit, counted from one, that wrote this slot. */
  ghost function LastWrite(n: nat, slot: nat): (m: nat)
    requires slot < n
    ensures 1 <= m <= n
  {
    n - (n - 1 - slot) % ROOT_HISTORY_SIZE
  }

  /** The deposit counts whose roots are still in the window. */
  ghost predicate InWindow(n: nat, m: nat)
  {
    m <= n && n < m + ROOT_HISTORY_SIZE && (n > 0 ==> m > 0)
  }

  /** `candidate` is a nonzero root of the window. */
  ghost predicate Known<T>(H: Hashing<T>, depth: nat, leaves: seq<T>, candidate: T)
  {
    && candidate != H.empty(0)
    && exists m: nat :: InWindow(|leaves|, m) && Root(H, depth, leaves[..m]) == candidate
  }

  lemma CursorMoves(n: nat)
    ensures n % ROOT_HISTORY_SIZE % ROOT_HISTORY_SIZE == n % ROOT_HISTORY_SIZE
    ensures (n % ROOT_HISTORY_SIZE + 1) % ROOT_HISTORY_SIZE == (n + 1) % ROOT_HISTORY_SIZE
  {
  }

  lemma LastWriteAfterInsert(n: nat, slot: nat)
    requires slot < ROOT_HISTORY_SIZE && slot <= n
    ensures LastWrite(n + 1, slot) == if slot == n % ROOT_HISTORY_SIZE then n + 1 else LastWrite(n, slot)
    ensures slot == n ==> slot == n % ROOT_HISTORY_SIZE
  {
  }

  /** The window is exactly what the slots were last written with. */
  lemma WindowIsRing(n: nat, m: nat)
    requires n > 0
    ensures InWindow(n, m) <==>
      m >= 1 && var slot := (m - 1) % ROOT_HISTORY_SIZE; slot < n && LastWrite(n, slot) == m
  {
  }

  /** One insertion overwrites the slot under the cursor with the new root and keeps the others. */
  lemma RingAfterInsert<T>(H: Hashing<T>, depth: nat, leaves: seq<T>, leaf: T)
    ensures Ring(H, depth, leaves + [leaf])
         == Ring(H, depth, leaves)[|leaves| % ROOT_HISTORY_SIZE := Root(H, depth, leaves + [leaf])]
  {
    var after := leaves + [leaf];
    assert after[..|after|] == after;
    forall slot | 0 <= slot < ROOT_HISTORY_SIZE && slot < |leaves|
      ensures slot != |leaves| % ROOT_HISTORY_SIZE ==>
        RingSlot(H, depth, after, slot) == RingSlot(H, depth, leaves, slot)
    {
      LastWriteAfterInsert(|leaves|, slot);
      assert after[..LastWrite(|leaves|, slot)] == leaves[..LastWrite(|leaves|, slot)];
    }
    LastWriteAfterInsert(|leaves|, |leaves| % ROOT_HISTORY_SIZE);
  }

  /** A nonzero root is accepted right after its deposit and through nine more, whatever they are. */
  lemma RootStaysKnown<T>(H: Hashing<T>, depth: nat, leaves: seq<T>, more: seq<T>)
    requires leaves != [] && |more| < ROOT_HISTORY_SIZE
    requires Root(H, depth, leaves) != H.empty(0)
    ensures Known(H, depth, leaves + more, Root(H, depth, leaves))
  {
    assert (leaves + more)[..|leaves|] == leaves;
    assert InWindow(|leaves + more|, |leaves|);
  }

  // -------------------------------------------------------------- empty trees

  /** The roots of the all-zero subtrees, one per level. */
  method ZeroValues<T>(pair: (T, T) -> T, zero: T, depth: nat) returns (levels: array<T>)
    ensures fresh(levels) && levels.Length == depth
    ensures forall level :: 0 <= level < depth ==> levels[level] == ZeroAt(pair, zero, level)
  {
    levels := new T[depth](_ => zero);
    var current := zero;
    for level := 0 to depth
      invariant current == ZeroAt(pair, zero, level)
      invariant forall l :: 0 <= l < level ==> levels[l] == ZeroAt(pair, zero, l)
    {
      levels[level] := current;
      var next := pair(current, current);
      current := next;
    }
  }

  /** The root of the tree without leaves. */
  method EmptyRoot<T>(pair: (T, T) -> T, zero: T, depth: nat) returns (current: T)
    ensures current == Root(ZeroHashing(pair, zero), depth, [])
  {
    current := zero;
    for level := 0 to depth
      invariant current == ZeroAt(pair, zero, level)
    {
      current := pair(current, current);
    }
    WidthIsShift(0, depth);
  }

  // ---------------------------------------------------------------- the class

  /** The pool account. `leaves` is the ghost history of inserted commitments. */
  class MerkleTreeState<T(==)> {
    const pair: (T, T) -> T
    const hashable: T -> bool  // what the hasher takes as an input; it takes all its own outputs
    const zero: T
    const depth: nat

    var authority: Pubkey
    var tokenMint: Pubkey
    var denomination: u64
    var commitmentCount: u64
    var relayerFeeBps: u16
    var rootCursor: byte
    var paused: bool
    var filledSubtrees: array<T>
    var roots: array<T>
    ghost var leaves: seq<T>

    ghost function H(): Hashing<T>
    {
      ZeroHashing(pair, zero)
    }

    ghost predicate Valid()
      reads this, filledSubtrees, roots
    {
      && depth < 64
      && filledSubtrees.Length == depth && roots.Length == ROOT_HISTORY_SIZE
      && filledSubtrees != roots
      && commitmentCount == |leaves| <= Pow2(depth)
      && rootCursor == |leaves| % ROOT_HISTORY_SIZE
      && filledSubtrees[..] == Cache(H(), depth, leaves)
      && roots[..] == Ring(H(), depth, leaves)
    }

    /** An empty pool account: every field as `initialize` assigns it. */
    constructor (pair: (T, T) -> T, hashable: T -> bool, zero: T, depth: nat, authority: Pubkey, tokenMint: Pubkey,
                 denomination: u64, relayerFeeBps: u16)
      requires depth < 64
      ensures Valid() && fresh(filledSubtrees) && fresh(roots)
      ensures this.pair == pair && this.hashable == hashable && this.zero == zero && this.depth == depth
      ensures this.authority == authority && this.tokenMint == tokenMint && this.denomination == denomination
      ensures this.relayerFeeBps == relayerFeeBps && !paused && leaves == []
    {
      this.pair, this.hashable, this.zero, this.depth := pair, hashable, zero, depth;
      this.authority := authority;
      this.tokenMint := tokenMint;
      this.denomination := denomination;
      commitmentCount := 0;
      this.relayerFeeBps := relayerFeeBps;
      rootCursor := 0;
      paused := false;
      leaves := [];
      var empty := ZeroValues(pair, zero, depth);
      filledSubtrees := empty;
      var initial := EmptyRoot(pair, zero, depth);
      roots := new T[ROOT_HISTORY_SIZE](_ => zero);
      new;
      roots[0] := initial;
    }

    /** The candidate is compared with every slot of the ring; the zero word never passes. */
    predicate RootIsKnown(candidate: T)
      reads this, filledSubtrees, roots
      requires Valid()
      ensures RootIsKnown(candidate) <==> Known(H(), depth, leaves, candidate)
    {
      RingIsWindow(candidate);
      candidate != zero && candidate in roots[..]
    }

    lemma RingIsWindow(candidate: T)
      requires Valid()
      ensures candidate != zero ==> (candidate in roots[..] <==> Known(H(), depth, leaves, candidate))
    {
      var n := |leaves|;
      if candidate != zero && candidate in roots[..] {
        var slot :| 0 <= slot < ROOT_HISTORY_SIZE && roots[slot] == candidate;
        if slot >= n {
          assert n == 0 && leaves[..0] == [] && InWindow(n, 0);
        } else {
          var m := LastWrite(n, slot);
          assert InWindow(n, m);
        }
      }
      if Known(H(), depth, leaves, candidate) {
        var m: nat :| InWindow(n, m) && Root(H(), depth, leaves[..m]) == candidate;
        if n == 0 {
          assert leaves[..m] == [] && roots[0] == candidate;
        } else {
          WindowIsRing(n, m);
          assert roots[(m - 1) % ROOT_HISTORY_SIZE] == candidate;
        }
      }
    }

    /** The walk from the new leaf to the root, caching left children on the way. */
    method Climb(leaf: T) returns (currentHash: T)
      requires Valid() && |leaves| < Pow2(depth)
      modifies filledSubtrees
      ensures currentHash == Root(H(), depth, leaves + [leaf])
      ensures filledSubtrees[..] == Cache(H(), depth, leaves + [leaf])
    {
      var zeros := ZeroValues(pair, zero, depth);
      var currentIndex: nat := commitmentCount;
      currentHash := leaf;
      ghost var after := leaves + [leaf];
      ghost var was, becomes := Cache(H(), depth, leaves), Cache(H(), depth, after);
      for level := 0 to depth
        invariant currentIndex == Shift(|leaves|, level)
        invariant currentHash == Node(H(), after, level, currentIndex)
        invariant forall l :: 0 <= l < depth ==> filledSubtrees[l] == if l < level then becomes[l] else was[l]
        modifies filledSubtrees
      {
        var left, right;
        if currentIndex % 2 == 0 {
          InsertOnLeft(H(), leaves, leaf, level, currentIndex);
          filledSubtrees[level] := currentHash;
          left, right := currentHash, zeros[level];
        } else {
          InsertOnRight(H(), leaves, leaf, level, currentIndex);
          left, right := filledSubtrees[level], currentHash;
        }
        currentHash := pair(left, right);
        currentIndex := currentIndex / 2;
      }
      ShiftVanishes(|leaves|, depth);
    }

    /** Insert a commitment: the in-place walk computes the root of the full tree and moves the ring on. */
    method Insert(leaf: T) returns (r: Result<T, Error>)
      requires Valid()
      modifies this`commitmentCount, this`rootCursor, this`leaves, filledSubtrees, roots
      ensures Valid()
      ensures old(|leaves|) == Pow2(depth) || !hashable(leaf) ==>
        r == Err(TreeFull) && leaves == old(leaves)
        && filledSubtrees[..] == old(filledSubtrees[..]) && roots[..] == old(roots[..])
      ensures old(|leaves|) < Pow2(depth) && hashable(leaf) ==>
        && leaves == old(leaves) + [leaf]
        && r == Ok(Root(H(), depth, leaves))
        && Root(H(), depth, leaves) == PlainRoot(pair, depth, Pad(leaves, Pow2(depth), zero))
    {
      if commitmentCount >= Pow2(depth) {
        return Err(TreeFull);
      }
      if !hashable(leaf) {
        return Err(TreeFull);  // the first hash of the walk fails, and with it the whole instruction
      }
      var currentHash := Climb(leaf);
      PushRoot(leaf, currentHash);
      RootIsPlainRoot(pair, zero, depth, leaves);
      return Ok(currentHash);
    }

    /** The new root goes under the cursor, which moves on, and the leaf counts. */
    method PushRoot(leaf: T, currentHash: T)
      requires depth < 64 && |leaves| < Pow2(depth) && commitmentCount == |leaves|
      requires filledSubtrees.Length == depth && roots.Length == ROOT_HISTORY_SIZE && filledSubtrees != roots
      requires rootCursor == |leaves| % ROOT_HISTORY_SIZE
      requires filledSubtrees[..] == Cache(H(), depth, leaves + [leaf])
      requires roots[..] == Ring(H(), depth, leaves) && currentHash == Root(H(), depth, leaves + [leaf])
      modifies this`commitmentCount, this`rootCursor, this`leaves, roots
      ensures Valid() && leaves == old(leaves) + [leaf]
    {
      RingAfterInsert(H(), depth, leaves, leaf);
      Pow2FitsWord(depth);
      CursorMoves(|leaves|);
      var cursor := rootCursor % ROOT_HISTORY_SIZE;
      roots[cursor] := currentHash;
      assert roots[..] == Ring(H(), depth, leaves + [leaf]);
      rootCursor := (cursor + 1) % ROOT_HISTORY_SIZE;
      commitmentCount := commitmentCount + 1;
      leaves := leaves + [leaf];
    }
  }
}
