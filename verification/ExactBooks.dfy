/** Books without a blocked note: every run has them exactly if positions and indices are one to one. */
module ExactBooks {
  import opened Accounting
  import opened Arithmetic
  import opened FullTree
  import opened HonestUse
  import opened IndexRule
  import opened Paths
  import opened Pool
  import opened Solvency
  import opened Words

  /** No index is allowed for two vectors of side bits. */
  ghost predicate NoSharedIndex<F(!new)>(c: Circuit<F>, depth: nat)
  {
    forall x, v, w :: |v| == depth && |w| == depth && c.allows(x, v) && c.allows(x, w) ==> v == w
  }

  ghost predicate OneToOne<F(!new)>(c: Circuit<F>, depth: nat)
  {
    OneIndex(c, depth) && NoSharedIndex(c, depth)
  }

  /** Each recorded withdrawal stands for one leaf: the leaves it has not opened are those not paid out. */
  ghost predicate BooksExact<F(!new)>(env: Env<F>, c: Circuit<F>, s: State<F>)
  {
    |s.receipts| + |Unopened(env, c, s)| == |s.leaves|
  }

  // -------------------------------------------------------------- the first half

  /** Notes at two positions never have one nullifier hash, even if two depositors drew the same nullifier. */
  lemma NullifiersStayApart<F(!new)>(env: Env<F>, c: Circuit<F>, leaves: seq<F>, x: F, y: F, i: nat, j: nat)
    requires Injective(env.pair) && NoSharedIndex(c, env.depth) && |leaves| <= Pow2(env.depth)
    requires Spends(env, c, leaves, x, i) && Spends(env, c, leaves, y, j) && i != j
    ensures x != y
  {
    IndexOfSides(i, env.depth);
    IndexOfSides(j, env.depth);
    var n, s, a, p :| NoteAt(env, c, leaves[i], x, i, n, s, a, p);
    var n', s', a', p' :| NoteAt(env, c, leaves[j], y, j, n', s', a', p');
    assert p == p' ==> Sides(i, env.depth) == Sides(j, env.depth);
  }

  /** So some nullifier hashes open no more leaves than there are of them. */
  lemma {:induction false} EachOpensOneLeaf<F(!new)>(env: Env<F>, c: Circuit<F>, leaves: seq<F>, spent: seq<F>)
    returns (touched: set<nat>)
    requires Injective(env.pair) && NoSharedIndex(c, env.depth) && |leaves| <= Pow2(env.depth)
    ensures |touched| <= |spent|
    ensures forall i, k :: 0 <= k < |spent| && Spends(env, c, leaves, spent[k], i) ==> i in touched
  {
    if spent == [] {
      return {};
    }
    var last := |spent| - 1;
    touched := EachOpensOneLeaf(env, c, leaves, spent[..last]);
    if i: nat :| Spends(env, c, leaves, spent[last], i) {
      forall j: nat | Spends(env, c, leaves, spent[last], j) ensures j == i {
        if j != i {
          NullifiersStayApart(env, c, leaves, spent[last], spent[last], i, j);
        }
      }
      touched := touched + {i};
    }
  }

  /** Under a one-to-one rule every run keeps exact books. */
  lemma RunBooksExact<F(!new)>(env: Env<F>, c: Circuit<F>, s0: State<F>, ixs: seq<Instruction<F>>)
    requires Trusted(env, c) && OneToOne(c, env.depth) && Initial(s0) && OwnersFit(env, s0.tokenMint)
    ensures BooksExact(env, c, Run(env, s0, ixs))
  {
    var s := Run(env, s0, ixs);
    RunIsSolvent(env, c, s0, ixs);
    RunIsSound(env, s0, ixs);
    var touched := EachOpensOneLeaf(env, c, s.leaves, Spent(s.receipts));
    forall i: nat | i < |s.leaves| && i !in touched ensures i in Unopened(env, c, s) {
      forall k | 0 <= k < |s.receipts| ensures !Spends(env, c, s.leaves, s.receipts[k].nullifier, i) {
        assert Spent(s.receipts)[k] == s.receipts[k].nullifier;
      }
    }
    SubsetSize(Below(|s.leaves|), touched + Unopened(env, c, s));
  }

  // ------------------------------------------------------------- the second half

  ghost function Copies<F>(leaf: F, n: nat): (leaves: seq<F>)
    ensures |leaves| == n && forall k :: 0 <= k < n ==> leaves[k] == leaf
  {
    seq(n, _ => leaf)
  }

  /**
   * An index allowed at two positions: a note deposited at both is paid once. Both leaves then count as opened, and
   * no withdrawal under that nullifier hash passes the checks any more.
   */
  lemma SharedIndexBlocksALeaf<F(!new)>(env: Env<F>, c: Circuit<F>, v: seq<bool>, w: seq<bool>, x: F)
    returns (s0: State<F>, ixs: seq<Instruction<F>>)
    requires Trusted(env, c) && Usable(env, c)
    requires |v| == |w| == env.depth && IndexOf(v) < IndexOf(w) && c.allows(x, v) && c.allows(x, w)
    ensures Initial(s0) && OwnersFit(env, s0.tokenMint)
    ensures var s := Run(env, s0, ixs);
      && |s.receipts| == 1 && |s.receipts| + |Unopened(env, c, s)| < |s.leaves|
      && IndexOf(w) < |s.leaves| && s.leaves[IndexOf(v)] == s.leaves[IndexOf(w)] == c.note(x, x, env.word(1))
      && forall r: Withdrawal<F> :: r.nullifier == env.pair(x, x) ==> CheckWithdrawal(env, s, r) == Err(AccountInUse)
  {
    var i, j := IndexOf(v), IndexOf(w);
    IndexBelow(w);
    SidesOfIndex(v);
    SidesOfIndex(w);
    SmallTree(env.depth, j + 1);
    s0, ixs := DepositsCanBeMade(env, c, Terms(1, 0), 0, Copies(c.note(x, x, env.word(1)), j + 1));
    var before := Run(env, s0, ixs);
    var paid := AllowedIndexIsPaid(env, c, before, i, x, x, x, Somebody(env.vault));
    RunSnoc(env, s0, ixs, WithdrawSol(paid));
    ixs := ixs + [WithdrawSol(paid)];
    BothAreOpened(env, c, Run(env, s0, ixs), i, j, x);
  }

  lemma BothAreOpened<F(!new)>(env: Env<F>, c: Circuit<F>, s: State<F>, i: nat, j: nat, x: F)
    requires i < j < |s.leaves| && |s.receipts| == 1 && s.receipts[0].nullifier == env.pair(x, x)
    requires s.leaves[i] == s.leaves[j] == c.note(x, x, env.word(1))
    requires c.allows(x, Sides(i, env.depth)) && c.allows(x, Sides(j, env.depth))
    ensures |s.receipts| + |Unopened(env, c, s)| < |s.leaves|
  {
    var amount := env.word(1);
    assert NoteAt(env, c, s.leaves[i], env.pair(x, x), i, x, x, amount, x);
    assert NoteAt(env, c, s.leaves[j], env.pair(x, x), j, x, x, amount, x);
    assert Opened(env, c, s, i) && Opened(env, c, s, j);
    var unopened := Unopened(env, c, s);
    SetBelow(unopened + {i, j}, |s.leaves|);
    assert |unopened + {i, j}| == |unopened| + 2;
  }

  lemma SharedIndexSpoilsBooks<F(!new)>(env: Env<F>, c: Circuit<F>, v: seq<bool>, w: seq<bool>, x: F)
    returns (s0: State<F>, ixs: seq<Instruction<F>>)
    requires Trusted(env, c) && Usable(env, c)
    requires |v| == |w| == env.depth && v != w && c.allows(x, v) && c.allows(x, w)
    ensures Initial(s0) && OwnersFit(env, s0.tokenMint) && !BooksExact(env, c, Run(env, s0, ixs))
  {
    if IndexOf(v) == IndexOf(w) {
      IndexIsUnique(v, w);
      assert false;
    } else if IndexOf(v) < IndexOf(w) {
      s0, ixs := SharedIndexBlocksALeaf(env, c, v, w, x);
    } else {
      s0, ixs := SharedIndexBlocksALeaf(env, c, w, v, x);
    }
  }

  // ------------------------------------------------------------------ the result

  /** Every run of every pool keeps exact books if and only if positions and indices are one to one. */
  lemma ExactIffOneToOne<F(!new)>(env: Env<F>, c: Circuit<F>)
    requires Trusted(env, c) && Usable(env, c)
    ensures (forall s0, ixs :: Initial(s0) && OwnersFit(env, s0.tokenMint) ==> BooksExact(env, c, Run(env, s0, ixs)))
      <==> OneToOne(c, env.depth)
  {
    if OneToOne(c, env.depth) {
      forall s0, ixs | Initial(s0) && OwnersFit(env, s0.tokenMint) ensures BooksExact(env, c, Run(env, s0, ixs)) {
        RunBooksExact(env, c, s0, ixs);
      }
    } else if !OneIndex(c, env.depth) {
      var sides, x, y :| |sides| == env.depth && c.allows(x, sides) && c.allows(y, sides) && x != y;
      var s0, ixs := TwoIndicesBreakSolvency(env, c, sides, x, y);
    } else {
      var x, v, w :| |v| == env.depth && |w| == env.depth && c.allows(x, v) && c.allows(x, w) && v != w;
      var s0, ixs := SharedIndexSpoilsBooks(env, c, v, w, x);
    }
  }

  /** Tying the index to the position, with different field elements for different positions, is one to one. */
  lemma BoundIndexIsOneToOne<F(!new)>(c: Circuit<F>, index: nat -> F, depth: nat)
    requires forall x, sides :: c.allows(x, sides) <==> x == index(IndexOf(sides))
    requires forall i, j :: 0 <= i < Pow2(depth) && 0 <= j < Pow2(depth) && index(i) == index(j) ==> i == j
    ensures OneToOne(c, depth)
  {
    forall x, v, w | |v| == depth && |w| == depth && c.allows(x, v) && c.allows(x, w) ensures v == w {
      IndexBelow(v);
      IndexBelow(w);
      IndexIsUnique(v, w);
    }
  }
}
