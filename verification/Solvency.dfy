/** What an accepted proof buys: every withdrawal spends its own deposited leaf, so the pool stays solvent. */
module Solvency {
  import opened Accounting
  import opened Arithmetic
  import opened FullTree
  import opened IncrementalTree
  import opened Instructions
  import opened Ledger
  import opened Paths
  import opened Pool
  import opened Words

  /** The note hash, and the rule on the index a proof may hash for given sides. */
  datatype Circuit<!F> = Circuit(note: (F, F, F) -> F, allows: (F, seq<bool>) -> bool)

  datatype Witness<F> = Witness(nullifier: F, secret: F, leafIndex: F, path: seq<F>, isLeft: seq<bool>)

  // --------------------------------------------------------------- hypotheses

  /** The constraints of the withdrawal circuit on root, nullifier hash and amount. */
  ghost predicate Statement<F>(env: Env<F>, c: Circuit<F>, w: Witness<F>, inputs: seq<F>)
  {
    && |inputs| == 6 && |w.path| == |w.isLeft| == env.depth
    && env.pair(w.nullifier, w.leafIndex) == inputs[1]
    && Fold(env.pair, c.note(w.nullifier, w.secret, inputs[3]), w.path, w.isLeft) == inputs[0]
  }

  /** What there are proofs of: the circuit's constraints together with the rule on the index. */
  ghost predicate Provable<F(!new)>(env: Env<F>, c: Circuit<F>, inputs: seq<F>)
  {
    exists w :: Statement(env, c, w, inputs) && c.allows(w.leafIndex, w.isLeft)
  }

  ghost predicate ProofsAreSound<F(!new)>(env: Env<F>, c: Circuit<F>)
  {
    forall p1, p2, p3, inputs :: env.groth16(p1, p2, p3, inputs) ==> Provable(env, c, inputs)
  }

  ghost predicate ProofsAreComplete<F(!new)>(env: Env<F>, c: Circuit<F>)
  {
    forall inputs :: Provable(env, c, inputs) ==> exists proof :: VerifyProof(env, proof, inputs)
  }

  ghost predicate InjectiveNote<F(!new)>(note: (F, F, F) -> F)
  {
    forall a, b, c, d, e, f :: note(a, b, c) == note(d, e, f) ==> a == d && b == e && c == f
  }

  /** Collision-free hashes, no note on the zero leaf, and a sound verifier. */
  ghost predicate Trusted<F(!new)>(env: Env<F>, c: Circuit<F>)
  {
    && Injective(env.pair) && InjectiveNote(c.note)
    && (forall n, s, a :: c.note(n, s, a) != env.zero)
    && ProofsAreSound(env, c)
  }

  /** The rule leaves at most one index for each vector of side bits. */
  ghost predicate OneIndex<F(!new)>(c: Circuit<F>, depth: nat)
  {
    forall sides, x, y :: |sides| == depth && c.allows(x, sides) && c.allows(y, sides) ==> x == y
  }

  // ------------------------------------------------------------ spending leaves

  /** `nullifier` is a nullifier hash that the rule allows for the note that is leaf `i`. */
  ghost predicate Spends<F(!new)>(env: Env<F>, c: Circuit<F>, leaves: seq<F>, nullifier: F, i: nat)
  {
    i < |leaves| && exists n, s, a, x :: NoteAt(env, c, leaves[i], nullifier, i, n, s, a, x)
  }

  ghost predicate NoteAt<F>(env: Env<F>, c: Circuit<F>, leaf: F, nullifier: F, i: nat, n: F, s: F, a: F, x: F)
  {
    leaf == c.note(n, s, a) && nullifier == env.pair(n, x) && c.allows(x, Sides(i, env.depth))
  }

  ghost predicate SpendsSome<F(!new)>(env: Env<F>, c: Circuit<F>, leaves: seq<F>, nullifier: F)
  {
    exists i: nat :: Spends(env, c, leaves, nullifier, i)
  }

  ghost predicate AllSpend<F(!new)>(env: Env<F>, c: Circuit<F>, leaves: seq<F>, spent: seq<F>)
  {
    forall k :: 0 <= k < |spent| ==> SpendsSome(env, c, leaves, spent[k])
  }

  ghost predicate Distinct<F>(spent: seq<F>)
  {
    forall j, k :: 0 <= j < k < |spent| ==> spent[j] != spent[k]
  }

  // -------------------------------------------------------- one leaf, one spend

  /** Under a rule with one index per position, a leaf has only one nullifier hash. */
  lemma LeafSpentOnce<F(!new)>(env: Env<F>, c: Circuit<F>, leaves: seq<F>, x: F, y: F, i: nat)
    requires InjectiveNote(c.note) && OneIndex(c, env.depth)
    requires Spends(env, c, leaves, x, i) && Spends(env, c, leaves, y, i)
    ensures x == y
  {
  }

  /** An accepted withdrawal opens a leaf deposited before it. */
  lemma AcceptedSpendsALeaf<F(!new)>(env: Env<F>, c: Circuit<F>, s: State<F>, w: Withdrawal<F>)
    requires Trusted(env, c) && |s.leaves| <= Pow2(env.depth)
    requires CheckWithdrawal(env, s, w).Ok?
    ensures SpendsSome(env, c, s.leaves, w.nullifier)
  {
    var inputs := PublicInputs(env, s.relayerFeeBps, w);
    var x: Witness<F> :| Statement(env, c, x, inputs) && c.allows(x.leafIndex, x.isLeft);
    var m: nat :| InWindow(|s.leaves|, m) && Root(env.H(), env.depth, s.leaves[..m]) == w.root;
    var leaf := c.note(x.nullifier, x.secret, inputs[3]);
    assert s.leaves[..m] + s.leaves[m..] == s.leaves;
    OpenedLeafStays(env.pair, env.zero, env.depth, s.leaves[..m], s.leaves[m..], leaf, x.path, x.isLeft);
    var i := IndexOf(x.isLeft);
    SidesOfIndex(x.isLeft);
    assert NoteAt(env, c, s.leaves[i], w.nullifier, i, x.nullifier, x.secret, inputs[3], x.leafIndex);
    assert Spends(env, c, s.leaves, w.nullifier, i);
  }

  /** Different nullifiers of the same leaves need different leaves, so there are no more of them. */
  lemma {:induction false} DistinctSpendsTakeDistinctLeaves<F(!new)>(env: Env<F>, c: Circuit<F>, leaves: seq<F>,
                                                                     spent: seq<F>)
    returns (used: set<nat>)
    requires InjectiveNote(c.note) && OneIndex(c, env.depth)
    requires AllSpend(env, c, leaves, spent) && Distinct(spent)
    ensures |used| == |spent|
    ensures forall i :: i in used ==> exists k :: 0 <= k < |spent| && Spends(env, c, leaves, spent[k], i)
  {
    if spent == [] {
      return {};
    }
    var last := |spent| - 1;
    var rest := DistinctSpendsTakeDistinctLeaves(env, c, leaves, spent[..last]);
    assert SpendsSome(env, c, leaves, spent[last]);
    var i: nat :| Spends(env, c, leaves, spent[last], i);
    forall k | 0 <= k < last && Spends(env, c, leaves, spent[k], i) ensures spent[k] == spent[last] {
      LeafSpentOnce(env, c, leaves, spent[k], spent[last], i);
    }
    used := rest + {i};
  }

  lemma {:induction false} SetBelow(s: set<nat>, n: nat)
    requires forall i :: i in s ==> i < n
    ensures |s| <= n
  {
    if n > 0 {
      SetBelow(s - {n - 1}, n - 1);
    } else {
      assert s == {};
    }
  }

  // --------------------------------------------------------------------- runs

  ghost function Spent<F>(receipts: seq<Receipt<F>>): (spent: seq<F>)
    ensures |spent| == |receipts|
    ensures forall k :: 0 <= k < |spent| ==> spent[k] == receipts[k].nullifier
  {
    if receipts == [] then [] else Spent(receipts[..|receipts| - 1]) + [receipts[|receipts| - 1].nullifier]
  }

  ghost predicate AllSpendLeaves<F(!new)>(env: Env<F>, c: Circuit<F>, s: State<F>)
  {
    AllSpend(env, c, s.leaves, Spent(s.receipts))
  }

  lemma SpendsStay<F(!new)>(env: Env<F>, c: Circuit<F>, leaves: seq<F>, leaves': seq<F>, spent: seq<F>)
    requires AllSpend(env, c, leaves, spent) && leaves <= leaves'
    ensures AllSpend(env, c, leaves', spent)
  {
    forall k | 0 <= k < |spent| ensures SpendsSome(env, c, leaves', spent[k]) {
      assert SpendsSome(env, c, leaves, spent[k]);
      var i: nat :| Spends(env, c, leaves, spent[k], i);
      assert Spends(env, c, leaves', spent[k], i);
    }
  }

  ghost predicate NewReceipt<F>(env: Env<F>, s: State<F>, s': State<F>, w: Withdrawal<F>, r: Receipt<F>)
  {
    CheckWithdrawal(env, s, w).Ok? && s'.receipts == s.receipts + [r] && r.nullifier == w.nullifier
  }

  /** Leaves are only appended, and a new receipt passed the check. */
  lemma StepGrowth<F>(env: Env<F>, s: State<F>, ix: Instruction<F>)
    ensures var s' := Apply(env, s, ix);
      && s.leaves <= s'.leaves
      && (s'.receipts == s.receipts ||
          (s'.leaves == s.leaves && exists w, r :: NewReceipt(env, s, s', w, r)))
  {
    if Step(env, s, ix).Ok? && (ix.WithdrawSol? || ix.WithdrawSpl?) {
      var s' := Apply(env, s, ix);
      assert NewReceipt(env, s, s', ix.w, s'.receipts[|s.receipts|]);
    }
  }

  lemma StepSpendsLeaves<F(!new)>(env: Env<F>, c: Circuit<F>, s: State<F>, ix: Instruction<F>)
    requires Trusted(env, c) && |s.leaves| <= Pow2(env.depth) && AllSpendLeaves(env, c, s)
    ensures AllSpendLeaves(env, c, Apply(env, s, ix))
  {
    StepGrowth(env, s, ix);
    var s' := Apply(env, s, ix);
    if s'.receipts == s.receipts {
      SpendsStay(env, c, s.leaves, s'.leaves, Spent(s.receipts));
    } else {
      var w, r :| NewReceipt(env, s, s', w, r);
      AcceptedSpendsALeaf(env, c, s, w);
      assert Spent(s'.receipts) == Spent(s.receipts) + [w.nullifier];
    }
  }

  lemma {:induction false} RunSpendsLeaves<F(!new)>(env: Env<F>, c: Circuit<F>, s0: State<F>, ixs: seq<Instruction<F>>)
    requires Trusted(env, c) && Initial(s0) && OwnersFit(env, s0.tokenMint)
    ensures AllSpendLeaves(env, c, Run(env, s0, ixs))
  {
    if ixs != [] {
      var earlier := ixs[..|ixs| - 1];
      RunSpendsLeaves(env, c, s0, earlier);
      RunIsSound(env, s0, earlier);
      StepSpendsLeaves(env, c, Run(env, s0, earlier), ixs[|ixs| - 1]);
    }
  }

  /** Some recorded nullifier is an allowed nullifier hash of the note at this leaf. */
  ghost predicate Opened<F(!new)>(env: Env<F>, c: Circuit<F>, s: State<F>, i: nat)
  {
    exists k :: 0 <= k < |s.receipts| && Spends(env, c, s.leaves, s.receipts[k].nullifier, i)
  }

  ghost function Unopened<F(!new)>(env: Env<F>, c: Circuit<F>, s: State<F>): set<nat>
  {
    set i: nat | i < |s.leaves| && !Opened(env, c, s, i)
  }

  /**
   * No withdrawal took the place of a leaf that none has opened, and on top of other funds the vault holds one
   * denomination for every deposit not paid out.
   */
  ghost predicate Solvent<F(!new)>(env: Env<F>, c: Circuit<F>, s0: State<F>, s: State<F>)
  {
    && |s.receipts| + |Unopened(env, c, s)| <= |s.leaves|
    && Held(env, s) == Held(env, s0) + s.inflow + s.denomination * (|s.leaves| - |s.receipts|)
  }

  /** Books that balance and receipts that spend different leaves make a solvent state. */
  lemma SolventBooks<F(!new)>(env: Env<F>, c: Circuit<F>, s0: State<F>, s: State<F>)
    requires InjectiveNote(c.note) && OneIndex(c, env.depth) && BooksBalance(env, s0, s) && SpentOnce(s)
    requires AllSpendLeaves(env, c, s)
    ensures Solvent(env, c, s0, s)
  {
    var spent := Spent(s.receipts);
    var used := DistinctSpendsTakeDistinctLeaves(env, c, s.leaves, spent);
    var unopened := Unopened(env, c, s);
    forall i | i in used ensures i < |s.leaves| && i !in unopened {
      var k :| 0 <= k < |spent| && Spends(env, c, s.leaves, spent[k], i);
      assert spent[k] == s.receipts[k].nullifier;
      assert Opened(env, c, s, i);
    }
    SetBelow(used + unopened, |s.leaves|);
    assert |used + unopened| == |used| + |unopened|;
    Distribute(s.denomination, |s.leaves|, |s.receipts|);
  }

  /** Solvency: under such a rule every run is solvent in every state it reaches. */
  lemma RunIsSolvent<F(!new)>(env: Env<F>, c: Circuit<F>, s0: State<F>, ixs: seq<Instruction<F>>)
    requires Trusted(env, c) && OneIndex(c, env.depth) && Initial(s0) && OwnersFit(env, s0.tokenMint)
    ensures Solvent(env, c, s0, Run(env, s0, ixs))
  {
    RunIsSound(env, s0, ixs);
    RunSpendsLeaves(env, c, s0, ixs);
    SolventBooks(env, c, s0, Run(env, s0, ixs));
  }

  lemma Distribute(d: int, a: int, b: int)
    ensures d * (a - b) == d * a - d * b
  {
  }

  lemma AtLeastOnce(d: nat, k: nat)
    requires k > 0
    ensures d * k >= d
  {
    assert d * k == d * (k - 1) + d;
  }

  /** A fresh nullifier hash can only spend a leaf that no withdrawal has spent. */
  lemma FreshSpendIsUnopened<F(!new)>(env: Env<F>, c: Circuit<F>, s: State<F>, nullifier: F, i: nat)
    requires InjectiveNote(c.note) && OneIndex(c, env.depth) && SpentOnce(s)
    requires nullifier !in s.nullifiers && Spends(env, c, s.leaves, nullifier, i)
    ensures i in Unopened(env, c, s)
  {
    forall k | 0 <= k < |s.receipts| ensures !Spends(env, c, s.leaves, s.receipts[k].nullifier, i) {
      if Spends(env, c, s.leaves, s.receipts[k].nullifier, i) {
        LeafSpentOnce(env, c, s.leaves, nullifier, s.receipts[k].nullifier, i);
        assert false;
      }
    }
  }

  lemma FreshSpendIsBacked<F(!new)>(env: Env<F>, c: Circuit<F>, s0: State<F>, s: State<F>, nullifier: F)
    requires InjectiveNote(c.note) && OneIndex(c, env.depth) && SpentOnce(s) && Solvent(env, c, s0, s)
    requires nullifier !in s.nullifiers && SpendsSome(env, c, s.leaves, nullifier)
    ensures |s.receipts| < |s.leaves| && Held(env, s) >= s.denomination
  {
    var i: nat :| Spends(env, c, s.leaves, nullifier, i);
    FreshSpendIsUnopened(env, c, s, nullifier, i);
    assert |Unopened(env, c, s)| >= 1;
    AtLeastOnce(s.denomination, |s.leaves| - |s.receipts|);
  }

  /** In every reachable state a withdrawal that passes the checks finds its amount in the vault. */
  lemma AcceptedIsCovered<F(!new)>(env: Env<F>, c: Circuit<F>, s0: State<F>, ixs: seq<Instruction<F>>, w: Withdrawal<F>)
    requires Trusted(env, c) && OneIndex(c, env.depth) && Initial(s0) && OwnersFit(env, s0.tokenMint)
    requires CheckWithdrawal(env, Run(env, s0, ixs), w).Ok?
    ensures var s := Run(env, s0, ixs);
      && |s.receipts| < |s.leaves|
      && Held(env, s) >= w.amount
      && (s.tokenMint == SYSTEM_PROGRAM ==> Debit(s.balances, env.vault, w.amount, InvalidProof).Ok?)
  {
    var s := Run(env, s0, ixs);
    RunIsSound(env, s0, ixs);
    RunIsSolvent(env, c, s0, ixs);
    AcceptedSpendsALeaf(env, c, s, w);
    FreshSpendIsBacked(env, c, s0, s, w.nullifier);
    NativeHeld(env, s);
  }

  /** So in a native pool that is not paused, a withdrawal goes through exactly when its checks pass. */
  lemma AcceptedIsPaid<F(!new)>(env: Env<F>, c: Circuit<F>, s0: State<F>, ixs: seq<Instruction<F>>, w: Withdrawal<F>)
    requires Trusted(env, c) && OneIndex(c, env.depth) && Initial(s0) && OwnersFit(env, s0.tokenMint)
    requires s0.tokenMint == SYSTEM_PROGRAM && Everything(s0.balances) < U64_LIMIT
    requires w.relayer != env.vault && !Run(env, s0, ixs).paused
    ensures var s := Run(env, s0, ixs);
      Step(env, s, WithdrawSol(w)).Ok? <==> CheckWithdrawal(env, s, w).Ok?
  {
    var s := Run(env, s0, ixs);
    RunIsSound(env, s0, ixs);
    if CheckWithdrawal(env, s, w).Ok? {
      AcceptedIsCovered(env, c, s0, ixs, w);
      CoveredIsPaid(env, s, w);
    }
  }

  /** A native withdrawal that passes the checks and is covered goes through. */
  lemma CoveredIsPaid<F(!new)>(env: Env<F>, s: State<F>, w: Withdrawal<F>)
    requires CheckWithdrawal(env, s, w).Ok? && s.relayerFeeBps <= BPS_WHOLE
    requires s.tokenMint == SYSTEM_PROGRAM && !s.paused && w.relayer != env.vault
    requires Everything(s.balances) < U64_LIMIT && Amount(s.balances, env.vault) >= w.amount
    ensures Step(env, s, WithdrawSol(w)).Ok?
  {
    SplitPayoutIsExact(w.amount, s.relayerFeeBps);
    var split := SplitPayout(w.amount, s.relayerFeeBps).value;
    CoveredPayoutGoesThrough(s.balances, env.vault, w.recipient, w.relayer, w.amount, split.0, split.1);
  }

  lemma NativeHeld<F>(env: Env<F>, s: State<F>)
    requires OwnersFit(env, s.tokenMint)
    ensures s.tokenMint == SYSTEM_PROGRAM ==> Held(env, s) == Amount(s.balances, env.vault)
  {
    if s.tokenMint == SYSTEM_PROGRAM {
      SumAtLeast(s.balances, env.Custody, env.vault);
    }
  }

  // ------------------------------------------------------------- completeness

  /** The note behind any deposited leaf can be proved, for every index that the rule allows at its position. */
  lemma NoteIsProvable<F(!new)>(env: Env<F>, c: Circuit<F>, leaves: seq<F>, i: nat, n: F, s: F, x: F, inputs: seq<F>)
    requires i < |leaves| <= Pow2(env.depth) && |inputs| == 6
    requires leaves[i] == c.note(n, s, inputs[3]) && c.allows(x, Sides(i, env.depth))
    requires inputs[0] == Root(env.H(), env.depth, leaves) && inputs[1] == env.pair(n, x)
    ensures Provable(env, c, inputs)
  {
    PathOpensRoot(env.H(), leaves, i, env.depth);
    assert Statement(env, c, Witness(n, s, x, OpeningPath(env.H(), leaves, i, env.depth), Sides(i, env.depth)), inputs);
  }

  /** With an accepted proof the checks pass through nine further deposits, as long as the nullifier is unspent. */
  lemma HonestWithdrawalPasses<F(!new)>(env: Env<F>, s: State<F>, leaves: seq<F>, more: seq<F>, w: Withdrawal<F>)
    requires leaves != [] && |more| < ROOT_HISTORY_SIZE && s.leaves == leaves + more
    requires w.root == Root(env.H(), env.depth, leaves) != env.zero
    requires w.amount == s.denomination && VerifyProof(env, w.proof, PublicInputs(env, s.relayerFeeBps, w))
    ensures CheckWithdrawal(env, s, w).Ok? <==> w.nullifier !in s.nullifiers
  {
    RootStaysKnown(env.H(), env.depth, leaves, more);
  }

  /** The owner of a note has a withdrawal for each index the rule allows, and only a spent nullifier stops it. */
  lemma OwnerHasWithdrawal<F(!new)>(env: Env<F>, c: Circuit<F>, s: State<F>, leaves: seq<F>, more: seq<F>,
                                    i: nat, n: F, secret: F, x: F, recipient: Pubkey, relayer: Pubkey)
    returns (w: Withdrawal<F>)
    requires ProofsAreComplete(env, c) && |more| < ROOT_HISTORY_SIZE && s.leaves == leaves + more
    requires i < |leaves| <= Pow2(env.depth) && leaves[i] == c.note(n, secret, env.word(s.denomination))
    requires c.allows(x, Sides(i, env.depth)) && Root(env.H(), env.depth, leaves) != env.zero
    ensures w.nullifier == env.pair(n, x) && w.recipient == recipient && w.relayer == relayer
    ensures w.amount == s.denomination
    ensures CheckWithdrawal(env, s, w).Ok? <==> w.nullifier !in s.nullifiers
  {
    w := Withdrawal(relayer, [], Root(env.H(), env.depth, leaves), env.pair(n, x), recipient, s.denomination);
    var inputs := PublicInputs(env, s.relayerFeeBps, w);
    NoteIsProvable(env, c, leaves, i, n, secret, x, inputs);
    var proof :| VerifyProof(env, proof, inputs);
    w := w.(proof := proof);
    HonestWithdrawalPasses(env, s, leaves, more, w);
  }

  /** From deposit to payout: an unspent note is paid to whom its owner likes, through nine further deposits. */
  lemma UnspentNoteIsPaid<F(!new)>(env: Env<F>, c: Circuit<F>, s0: State<F>, ixs: seq<Instruction<F>>,
                                   leaves: seq<F>, more: seq<F>, i: nat, n: F, secret: F, x: F,
                                   recipient: Pubkey, relayer: Pubkey)
    returns (w: Withdrawal<F>, cut: int)
    requires Trusted(env, c) && ProofsAreComplete(env, c) && OneIndex(c, env.depth)
    requires Initial(s0) && OwnersFit(env, s0.tokenMint)
    requires s0.tokenMint == SYSTEM_PROGRAM && Everything(s0.balances) < U64_LIMIT && relayer != env.vault
    requires Run(env, s0, ixs).leaves == leaves + more && |more| < ROOT_HISTORY_SIZE && !Run(env, s0, ixs).paused
    requires i < |leaves| && leaves[i] == c.note(n, secret, env.word(s0.denomination))
    requires c.allows(x, Sides(i, env.depth)) && env.pair(n, x) !in Run(env, s0, ixs).nullifiers
    requires Root(env.H(), env.depth, leaves) != env.zero
    ensures w.nullifier == env.pair(n, x) && w.recipient == recipient && w.relayer == relayer
    ensures w.amount == s0.denomination && Step(env, Run(env, s0, ixs), WithdrawSol(w)).Ok?
    ensures IsCut(s0.denomination, s0.relayerFeeBps, cut)
    ensures var s := Run(env, s0, ixs);
      forall k :: Amount(Step(env, s, WithdrawSol(w)).value.balances, k) ==
        Amount(s.balances, k) + Change(k, env.vault, s0.denomination, recipient, relayer, cut)
  {
    RunIsSound(env, s0, ixs);
    w := OwnerHasWithdrawal(env, c, Run(env, s0, ixs), leaves, more, i, n, secret, x, recipient, relayer);
    AcceptedIsPaid(env, c, s0, ixs, w);
    cut := NativeWithdrawalPays(env, Run(env, s0, ixs), w);
  }

  // ------------------------------------------------------------ the root window

  /** Without collisions and zero leaves, a root is accepted through nine further deposits and never after that. */
  lemma RootKnownExactlyNine<F(!new)>(env: Env<F>, leaves: seq<F>, more: seq<F>)
    requires Injective(env.pair) && leaves != [] && |leaves + more| <= Pow2(env.depth)
    requires forall k :: 0 <= k < |leaves + more| ==> (leaves + more)[k] != env.zero
    requires Root(env.H(), env.depth, leaves) != env.zero
    ensures Known(env.H(), env.depth, leaves + more, Root(env.H(), env.depth, leaves)) <==> |more| <= 9
  {
    var all := leaves + more;
    assert all[..|leaves|] == leaves;
    if |more| < ROOT_HISTORY_SIZE {
      RootStaysKnown(env.H(), env.depth, leaves, more);
    } else {
      forall m: nat | InWindow(|all|, m)
        ensures Root(env.H(), env.depth, all[..m]) != Root(env.H(), env.depth, leaves)
      {
        assert all[..m][|leaves|] == all[|leaves|];
        LongerTreeDiffers(env.pair, env.zero, env.depth, leaves, all[..m]);
      }
    }
  }
}
