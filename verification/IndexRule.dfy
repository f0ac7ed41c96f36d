/** The rule on the hashed index: every run of every pool is solvent exactly if it leaves one index per position. */
module IndexRule {
  import opened Accounting
  import opened Arithmetic
  import opened FullTree
  import opened HonestUse
  import opened Ledger
  import opened Paths
  import opened Pool
  import opened Solvency
  import opened Words

  // ----------------------------------------------------------- the circuit's text

  /** Two openings of one leaf have one nullifier hash exactly when they hash the same index. */
  lemma SameNullifierIffSameIndex<F(!new)>(env: Env<F>, c: Circuit<F>, x: Witness<F>, xs: seq<F>, y: Witness<F>,
                                           ys: seq<F>)
    requires Injective(env.pair) && InjectiveNote(c.note)
    requires Statement(env, c, x, xs) && Statement(env, c, y, ys) && xs[0] == ys[0] && x.isLeft == y.isLeft
    ensures xs[1] == ys[1] <==> x.leafIndex == y.leafIndex
  {
    OpeningsAgree(env.pair, c.note(x.nullifier, x.secret, xs[3]), x.path,
                  c.note(y.nullifier, y.secret, ys[3]), y.path, x.isLeft);
  }

  /** The circuit's own constraints hold for any other index as well, with another nullifier hash. */
  lemma CircuitLeavesIndexFree<F(!new)>(env: Env<F>, c: Circuit<F>, w: Witness<F>, inputs: seq<F>, other: F)
    requires Injective(env.pair) && Statement(env, c, w, inputs) && other != w.leafIndex
    ensures var inputs' := inputs[1 := env.pair(w.nullifier, other)];
      && Statement(env, c, w.(leafIndex := other), inputs')
      && inputs'[1] != inputs[1] && inputs'[0] == inputs[0]
  {
  }

  // --------------------------------------------------------------- two payouts

  /** Two allowed indices pay one leaf twice: receipts grow by two while no leaf is added. */
  lemma TwoIndicesPayTwice<F(!new)>(env: Env<F>, c: Circuit<F>, s: State<F>, i: nat, n: F, secret: F, x: F, y: F,
                                    payee: Pubkey)
    returns (v: Withdrawal<F>, w: Withdrawal<F>)
    requires Usable(env, c) && Injective(env.pair) && Plain(env, s) && s.leaves[0] != env.zero
    requires i < |s.leaves| && s.leaves[i] == c.note(n, secret, env.word(s.denomination))
    requires x != y && c.allows(x, Sides(i, env.depth)) && c.allows(y, Sides(i, env.depth))
    requires env.pair(n, x) !in s.nullifiers && env.pair(n, y) !in s.nullifiers
    requires Amount(s.balances, env.vault) >= 2 * s.denomination && payee != env.vault
    ensures Step(env, s, WithdrawSol(v)).Ok? && PaidOut(env, s, Apply(env, s, WithdrawSol(v)), env.pair(n, x))
    ensures var s' := Apply(env, s, WithdrawSol(v));
      Step(env, s', WithdrawSol(w)).Ok? && PaidOut(env, s', Apply(env, s', WithdrawSol(w)), env.pair(n, y))
  {
    v := AllowedIndexIsPaid(env, c, s, i, n, secret, x, payee);
    w := AllowedIndexIsPaid(env, c, Apply(env, s, WithdrawSol(v)), i, n, secret, y, payee);
  }

  /** After these deposits two payouts of leaf `i`, for two allowed indices, go through. */
  lemma DepositAndPayTwice<F(!new)>(env: Env<F>, c: Circuit<F>, terms: Terms, held: u64, leaves: seq<F>, i: nat,
                                    n: F, secret: F, x: F, y: F)
    returns (s0: State<F>, ixs: seq<Instruction<F>>)
    requires Usable(env, c) && Injective(env.pair) && terms.Allowed() && i < |leaves| <= Pow2(env.depth)
    requires (forall k :: 0 <= k < |leaves| ==> env.hashable(leaves[k])) && leaves[0] != env.zero
    requires leaves[i] == c.note(n, secret, env.word(terms.denomination))
    requires x != y && c.allows(x, Sides(i, env.depth)) && c.allows(y, Sides(i, env.depth))
    requires 2 * terms.denomination <= held + terms.denomination * |leaves| < U64_LIMIT
    ensures Initial(s0) && OwnersFit(env, s0.tokenMint)
    ensures var s := Run(env, s0, ixs);
      && Plain(env, s) && s.leaves == leaves && |s.receipts| == 2
      && s.denomination == terms.denomination && s.relayerFeeBps == terms.feeBps
      && s.receipts[0].nullifier == env.pair(n, x) && s.receipts[1].nullifier == env.pair(n, y)
      && s.nullifiers == {env.pair(n, x), env.pair(n, y)}
      && Amount(s.balances, env.vault) == held + terms.denomination * |leaves| - 2 * terms.denomination
  {
    s0, ixs := DepositsCanBeMade(env, c, terms, held, leaves);
    var v, w := TwoIndicesPayTwice(env, c, Run(env, s0, ixs), i, n, secret, x, y, Somebody(env.vault));
    RunSnoc(env, s0, ixs, WithdrawSol(v));
    RunSnoc(env, s0, ixs + [WithdrawSol(v)], WithdrawSol(w));
    ixs := ixs + [WithdrawSol(v)] + [WithdrawSol(w)];
  }

  // ------------------------------------------------------------ the two halves

  ghost function Below(n: nat): (s: set<nat>)
    ensures |s| == n && forall k: nat :: k in s <==> k < n
  {
    if n == 0 then {} else Below(n - 1) + {n - 1}
  }

  /** Nullifier hashes of one note spend no leaf that holds another. */
  lemma OthersAreUnopened<F(!new)>(env: Env<F>, c: Circuit<F>, s: State<F>, i: nat, x: F, y: F, amount: F)
    requires Injective(env.pair) && InjectiveNote(c.note) && x != y && i <= |s.leaves| && |s.receipts| == 2
    requires forall k :: 0 <= k < i ==> s.leaves[k] == c.note(y, x, amount)
    requires s.receipts[0].nullifier == env.pair(x, x) && s.receipts[1].nullifier == env.pair(x, y)
    ensures i <= |Unopened(env, c, s)|
  {
    forall k: nat | k < i ensures k in Unopened(env, c, s) {
      assert s.leaves[k] == c.note(y, x, amount);
    }
    SubsetSize(Below(i), Unopened(env, c, s));
  }

  lemma SmallTree(depth: nat, leaves: nat)
    requires depth < 64 && leaves <= Pow2(depth)
    ensures leaves + 1 < U64_LIMIT
  {
    Pow2Bound(depth, 63);
    assert Pow2(64) == 2 * Pow2(63);
    Pow2Of64();
  }

  /** A note of `x` at position `i`, after notes of `y`. */
  ghost function OneAmong<F>(c: Circuit<F>, i: nat, x: F, y: F, amount: F): (leaves: seq<F>)
    ensures |leaves| == i + 1 && leaves[i] == c.note(x, x, amount)
    ensures forall k :: 0 <= k < i ==> leaves[k] == c.note(y, x, amount)
  {
    seq(i, _ => c.note(y, x, amount)) + [c.note(x, x, amount)]
  }

  /** Two allowed indices for one position give a pool and a run that pays out more than its spent leaf brought in. */
  lemma TwoIndicesBreakSolvency<F(!new)>(env: Env<F>, c: Circuit<F>, sides: seq<bool>, x: F, y: F)
    returns (s0: State<F>, ixs: seq<Instruction<F>>)
    requires Trusted(env, c) && Usable(env, c)
    requires |sides| == env.depth && x != y && c.allows(x, sides) && c.allows(y, sides)
    ensures Initial(s0) && OwnersFit(env, s0.tokenMint)
    ensures var s := Run(env, s0, ixs);
      |s.receipts| + |Unopened(env, c, s)| > |s.leaves| && !Solvent(env, c, s0, s)
  {
    var i := IndexOf(sides);
    IndexBelow(sides);
    SidesOfIndex(sides);
    SmallTree(env.depth, i + 1);
    var amount := env.word(1);
    var leaves := OneAmong(c, i, x, y, amount);
    s0, ixs := DepositAndPayTwice(env, c, Terms(1, 0), 1, leaves, i, x, x, x, y);
    OthersAreUnopened(env, c, Run(env, s0, ixs), i, x, y, amount);
  }

  lemma SubsetSize(a: set<nat>, b: set<nat>)
    requires a <= b
    ensures |a| <= |b|
  {
    assert b == a + (b - a);
  }

  /** Every run of every pool is solvent if and only if the rule leaves at most one index per position. */
  lemma SolventIffOneIndex<F(!new)>(env: Env<F>, c: Circuit<F>)
    requires Trusted(env, c) && Usable(env, c)
    ensures (forall s0, ixs :: Initial(s0) && OwnersFit(env, s0.tokenMint) ==> Solvent(env, c, s0, Run(env, s0, ixs)))
      <==> OneIndex(c, env.depth)
  {
    if OneIndex(c, env.depth) {
      forall s0, ixs | Initial(s0) && OwnersFit(env, s0.tokenMint) ensures Solvent(env, c, s0, Run(env, s0, ixs)) {
        RunIsSolvent(env, c, s0, ixs);
      }
    } else {
      var sides, x, y :| |sides| == env.depth && c.allows(x, sides) && c.allows(y, sides) && x != y;
      var s0, ixs := TwoIndicesBreakSolvency(env, c, sides, x, y);
    }
  }

  // ---------------------------------------------------------------- two rules

  /** The circuit as it stands has no rule, so some run of some pool is not solvent. */
  lemma WithoutRuleNotSolvent<F(!new)>(env: Env<F>, c: Circuit<F>, x: F, y: F)
    returns (s0: State<F>, ixs: seq<Instruction<F>>)
    requires Trusted(env, c) && Usable(env, c) && x != y
    requires forall index, sides :: c.allows(index, sides)
    ensures Initial(s0) && OwnersFit(env, s0.tokenMint) && !Solvent(env, c, s0, Run(env, s0, ixs))
  {
    s0, ixs := TwoIndicesBreakSolvency(env, c, Sides(0, env.depth), x, y);
  }

  /** Tying the index to the sides, as its meaning asks for, is such a rule. */
  lemma BoundIndexIsOneIndex<F(!new)>(c: Circuit<F>, index: nat -> F, depth: nat)
    requires forall x, sides :: c.allows(x, sides) <==> x == index(IndexOf(sides))
    ensures OneIndex(c, depth)
  {
  }

  /**
   * Two depositors and no rule: once one note has been paid twice, the other depositor's withdrawal passes every
   * check and fails at the vault, whatever denomination and fee.
   */
  lemma OtherDepositorIsRefused<F(!new)>(env: Env<F>, c: Circuit<F>, terms: Terms, x: F, y: F)
    returns (s0: State<F>, ixs: seq<Instruction<F>>, w: Withdrawal<F>)
    requires Trusted(env, c) && Usable(env, c) && x != y && env.depth > 0
    requires forall index, sides :: c.allows(index, sides)
    requires terms.Allowed() && 0 < 2 * terms.denomination < U64_LIMIT
    ensures Initial(s0) && OwnersFit(env, s0.tokenMint)
    ensures var s := Run(env, s0, ixs);
      var amount := env.word(terms.denomination);
      && s.denomination == terms.denomination && s.relayerFeeBps == terms.feeBps
      && s.leaves == [c.note(x, x, amount), c.note(y, x, amount)] && |s.receipts| == 2
      && w.nullifier == env.pair(y, x) && CheckWithdrawal(env, s, w).Ok?
      && Debit(s.balances, env.vault, w.amount, InvalidProof).Err?
      && Step(env, s, WithdrawSol(w)) == Err(InvalidProof)
  {
    var amount := env.word(terms.denomination);
    var leaves := [c.note(x, x, amount), c.note(y, x, amount)];
    Pow2Bound(1, env.depth);
    assert Pow2(1) == 2;
    s0, ixs := DepositAndPayTwice(env, c, terms, 0, leaves, 0, x, x, x, y);
    var s := Run(env, s0, ixs);
    RootIsNotZero(env, s.leaves);
    assert s.leaves + [] == s.leaves;
    var payee := Somebody(env.vault);
    w := OwnerHasWithdrawal(env, c, s, s.leaves, [], 1, y, x, x, payee, payee);
    assert env.pair(y, x) !in s.nullifiers;
    SplitPayoutIsExact(w.amount, s.relayerFeeBps);
  }

  // ---------------------------------------------------------- the hypotheses

  function TermCircuit(allows: (Term, seq<bool>) -> bool): Circuit<Term>
  {
    Circuit((n, s, a) => Pair(n, Pair(s, a)), allows)
  }

  /** Over hash terms, native accounts and a verifier that accepts exactly what is provable under the rule. */
  ghost function TermEnv(base: Env<Term>, allows: (Term, seq<bool>) -> bool): Env<Term>
  {
    var plain := base.(zero := Word(0), pair := (a, b) => Pair(a, b), hashable := t => true, owner := k => k);
    plain.(groth16 := (p1, p2, p3, inputs) => Provable(plain, TermCircuit(allows), inputs))
  }

  /** For every depth and every rule the hypotheses can be met, by a pool that `initialize` can open. */
  lemma TrustedCanBeMet(base: Env<Term>, allows: (Term, seq<bool>) -> bool)
    requires base.depth < 64
    ensures var env := TermEnv(base, allows);
      var s0 := NewPool<Term>(env, Terms(1, 0), Somebody(env.vault), 1, 0);
      && Trusted(env, TermCircuit(allows)) && Usable(env, TermCircuit(allows)) && env.depth == base.depth
      && Initial(s0) && OwnersFit(env, s0.tokenMint)
  {
    var env := TermEnv(base, allows);
    var c := TermCircuit(allows);
    var plain := base.(zero := Word(0), pair := (a, b) => Pair(a, b), hashable := t => true, owner := k => k);
    forall inputs ensures Provable(env, c, inputs) <==> Provable(plain, c, inputs) {
      assert forall w :: Statement(env, c, w, inputs) <==> Statement(plain, c, w, inputs);
    }
    forall inputs | Provable(env, c, inputs) ensures exists proof :: VerifyProof(env, proof, inputs) {
      assert VerifyProof(env, seq(PROOF_LENGTH, _ => 0), inputs);
    }
  }
}
