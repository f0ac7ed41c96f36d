/** Pools in ordinary use: any number of deposits, and payouts of deposited notes. */
module HonestUse {
  import opened Accounting
  import opened Arithmetic
  import opened FullTree
  import opened Ledger
  import opened Paths
  import opened Pool
  import opened Solvency
  import opened Words

  /** What an honest user relies on: provable inputs have proofs, notes can be inserted, no node is the zero word. */
  ghost predicate Usable<F(!new)>(env: Env<F>, c: Circuit<F>)
  {
    && ProofsAreComplete(env, c)
    && (forall n, s, a :: env.hashable(c.note(n, s, a)))
    && (forall a, b :: env.pair(a, b) != env.zero)
    && (forall k :: env.owner(k) == k)
    && env.depth < 64
  }

  // --------------------------------------------------------------- one payout

  lemma RootIsNotZero<F(!new)>(env: Env<F>, leaves: seq<F>)
    requires leaves != [] && leaves[0] != env.zero && (forall a, b :: env.pair(a, b) != env.zero)
    ensures Root(env.H(), env.depth, leaves) != env.zero
  {
    WidthIsShift(|leaves|, env.depth);
  }

  /** A native pool in use, with less in all than a word holds. */
  ghost predicate Plain<F>(env: Env<F>, s: State<F>)
  {
    && s.tokenMint == SYSTEM_PROGRAM && !s.paused && s.relayerFeeBps <= BPS_WHOLE
    && Everything(s.balances) < U64_LIMIT && 0 < |s.leaves| <= Pow2(env.depth)
  }

  /** The state after one denomination has left the vault for `payee` against this nullifier. */
  ghost predicate PaidOut<F>(env: Env<F>, s: State<F>, s': State<F>, nullifier: F)
  {
    && Plain(env, s') && s'.leaves == s.leaves && s'.denomination == s.denomination
    && s'.relayerFeeBps == s.relayerFeeBps
    && s'.nullifiers == s.nullifiers + {nullifier}
    && |s'.receipts| == |s.receipts| + 1 && s'.receipts[..|s.receipts|] == s.receipts
    && s'.receipts[|s.receipts|].nullifier == nullifier
    && Amount(s'.balances, env.vault) == Amount(s.balances, env.vault) - s.denomination
  }

  /** A covered withdrawal to someone other than the vault takes one denomination out of it. */
  lemma PlainPayout<F(!new)>(env: Env<F>, s: State<F>, w: Withdrawal<F>)
    requires Plain(env, s) && CheckWithdrawal(env, s, w).Ok? && Amount(s.balances, env.vault) >= s.denomination
    requires w.recipient != env.vault && w.relayer != env.vault
    ensures Step(env, s, WithdrawSol(w)).Ok? && PaidOut(env, s, Apply(env, s, WithdrawSol(w)), w.nullifier)
  {
    CoveredIsPaid(env, s, w);
    SplitPayoutIsExact(w.amount, s.relayerFeeBps);
    var split := SplitPayout(w.amount, s.relayerFeeBps).value;
    PaySolSum(s.balances, env.vault, w.recipient, w.relayer, w.amount, split.0, split.1, (k: Pubkey) => true);
  }

  /** A deposited note is paid for any index that the rule allows and that was not used for it before. */
  lemma AllowedIndexIsPaid<F(!new)>(env: Env<F>, c: Circuit<F>, s: State<F>, i: nat, n: F, secret: F, x: F,
                                    payee: Pubkey)
    returns (w: Withdrawal<F>)
    requires Usable(env, c) && Plain(env, s) && s.leaves[0] != env.zero
    requires i < |s.leaves| && s.leaves[i] == c.note(n, secret, env.word(s.denomination))
    requires c.allows(x, Sides(i, env.depth)) && env.pair(n, x) !in s.nullifiers
    requires Amount(s.balances, env.vault) >= s.denomination && payee != env.vault
    ensures w.nullifier == env.pair(n, x) && CheckWithdrawal(env, s, w).Ok? && Step(env, s, WithdrawSol(w)).Ok?
    ensures PaidOut(env, s, Apply(env, s, WithdrawSol(w)), env.pair(n, x))
  {
    RootIsNotZero(env, s.leaves);
    assert s.leaves + [] == s.leaves;
    w := OwnerHasWithdrawal(env, c, s, s.leaves, [], i, n, secret, x, payee, payee);
    PlainPayout(env, s, w);
  }

  // ----------------------------------------------------------------- deposits

  datatype Terms = Terms(denomination: u64, feeBps: u16)
  {
    predicate Allowed() { feeBps <= MAX_RELAYER_FEE_BPS }
  }

  /** A native pool opened by a payer with the given means; the vault may hold some lamports already. */
  ghost function NewPool<F>(env: Env<F>, terms: Terms, payer: Pubkey, means: u64, held: u64): State<F>
  {
    State(payer, SYSTEM_PROGRAM, terms.denomination, terms.feeBps, false, [], {}, [],
          map[payer := means, env.vault := held], 0)
  }

  function Deposits<F>(payer: Pubkey, leaves: seq<F>): seq<Instruction<F>>
  {
    if leaves == [] then [] else Deposits(payer, leaves[..|leaves| - 1]) + [DepositSol(payer, leaves[|leaves| - 1])]
  }

  lemma RunSnoc<F>(env: Env<F>, s: State<F>, ixs: seq<Instruction<F>>, ix: Instruction<F>)
    ensures Run(env, s, ixs + [ix]) == Apply(env, Run(env, s, ixs), ix)
  {
    assert (ixs + [ix])[..|ixs + [ix]| - 1] == ixs;
  }

  ghost predicate Leads<F>(env: Env<F>, s: State<F>, ix: Instruction<F>, s': State<F>)
  {
    Apply(env, s, ix) == s'
  }

  lemma RunOnTo<F>(env: Env<F>, s: State<F>, ixs: seq<Instruction<F>>, ix: Instruction<F>, s': State<F>)
    requires Leads(env, Run(env, s, ixs), ix, s')
    ensures Run(env, s, ixs + [ix]) == s'
  {
    RunSnoc(env, s, ixs, ix);
  }

  /** The pool once these leaves are in and this much has moved from payer to vault. */
  ghost function Filled<F>(env: Env<F>, terms: Terms, payer: Pubkey, means: u64, held: u64, moved: nat,
                           leaves: seq<F>): State<F>
    requires moved <= means && means + held < U64_LIMIT
  {
    NewPool(env, terms, payer, means - moved, held + moved).(leaves := leaves)
  }

  lemma NextDeposit<F>(env: Env<F>, terms: Terms, payer: Pubkey, means: u64, held: u64, moved: nat,
                       before: seq<F>, leaf: F)
    requires payer != env.vault && moved + terms.denomination <= means && means + held < U64_LIMIT
    requires |before| < Pow2(env.depth) && env.hashable(leaf)
    ensures Leads(env, Filled(env, terms, payer, means, held, moved, before), DepositSol(payer, leaf),
                  Filled(env, terms, payer, means, held, moved + terms.denomination, before + [leaf]))
  {
    var d, from: u64, to: u64 := terms.denomination, means - moved, held + moved;
    var b: Balances := map[payer := from, env.vault := to];
    var debited: Balances := map[payer := from - d, env.vault := to];
    assert b[payer := from - d] == debited;
    assert debited[env.vault := to + d] == map[payer := from - d, env.vault := to + d];
  }

  lemma OneMore(d: nat, k: nat)
    ensures d * (k + 1) == d * k + d && d * k >= 0
  {
  }

  /** The deposits go through one by one, each moving one denomination. */
  lemma {:induction false} DepositsRun<F>(env: Env<F>, terms: Terms, payer: Pubkey, means: u64, held: u64,
                                          leaves: seq<F>)
    requires payer != env.vault && |leaves| <= Pow2(env.depth)
    requires terms.denomination * |leaves| <= means && means + held < U64_LIMIT
    requires forall k :: 0 <= k < |leaves| ==> env.hashable(leaves[k])
    ensures Run(env, NewPool(env, terms, payer, means, held), Deposits(payer, leaves))
         == Filled(env, terms, payer, means, held, terms.denomination * |leaves|, leaves)
  {
    if leaves != [] {
      var last := |leaves| - 1;
      var earlier := leaves[..last];
      var moved := terms.denomination * last;
      OneMore(terms.denomination, last);
      DepositsRun(env, terms, payer, means, held, earlier);
      NextDeposit(env, terms, payer, means, held, moved, earlier, leaves[last]);
      assert earlier + [leaves[last]] == leaves;
      RunOnTo(env, NewPool(env, terms, payer, means, held), Deposits(payer, earlier), DepositSol(payer, leaves[last]),
              Filled(env, terms, payer, means, held, moved + terms.denomination, leaves));
    }
  }

  lemma TwoAccountsSum(payer: Pubkey, means: u64, vault: Pubkey, held: u64)
    requires payer != vault
    ensures Everything(map[payer := means, vault := held]) == means + held
  {
    var all := (k: Pubkey) => true;
    SumPut(map[], all, payer, means);
    SumPut(map[payer := means], all, vault, held);
    assert map[][payer := means] == map[payer := means];
    assert map[payer := means][vault := held] == map[payer := means, vault := held];
  }

  /** Someone other than the vault. */
  ghost function Somebody(vault: Pubkey): (p: Pubkey)
    ensures p != vault
  {
    var ones: Pubkey := seq(32, _ => 1);
    assert ones[0] == 1;
    if vault == ones then SYSTEM_PROGRAM else ones
  }

  /** The state right after some deposits: nothing withdrawn, and a denomination for each leaf in the vault. */
  ghost predicate JustDeposited<F>(env: Env<F>, terms: Terms, held: u64, leaves: seq<F>, s: State<F>)
  {
    && Plain(env, s) && s.leaves == leaves
    && s.denomination == terms.denomination && s.relayerFeeBps == terms.feeBps
    && s.receipts == [] && s.nullifiers == {}
    && Amount(s.balances, env.vault) == held + terms.denomination * |leaves|
  }

  lemma FilledIsJustDeposited<F>(env: Env<F>, terms: Terms, payer: Pubkey, held: u64, moved: u64, leaves: seq<F>)
    requires payer != env.vault && terms.Allowed() && 0 < |leaves| <= Pow2(env.depth)
    requires moved == terms.denomination * |leaves| && held + moved < U64_LIMIT
    ensures JustDeposited(env, terms, held, leaves, Filled(env, terms, payer, moved, held, moved, leaves))
  {
    TwoAccountsSum(payer, 0, env.vault, held + moved);
  }

  /** For all terms and leaves there is a pool that takes just these deposits. */
  lemma DepositsCanBeMade<F(!new)>(env: Env<F>, c: Circuit<F>, terms: Terms, held: u64, leaves: seq<F>)
    returns (s0: State<F>, ixs: seq<Instruction<F>>)
    requires Usable(env, c) && terms.Allowed() && 0 < |leaves| <= Pow2(env.depth)
    requires held + terms.denomination * |leaves| < U64_LIMIT
    requires forall k :: 0 <= k < |leaves| ==> env.hashable(leaves[k])
    ensures Initial(s0) && OwnersFit(env, s0.tokenMint) && JustDeposited(env, terms, held, leaves, Run(env, s0, ixs))
  {
    var payer := Somebody(env.vault);
    var means: u64 := terms.denomination * |leaves|;
    s0, ixs := NewPool(env, terms, payer, means, held), Deposits(payer, leaves);
    DepositsRun(env, terms, payer, means, held, leaves);
    FilledIsJustDeposited(env, terms, payer, held, means, leaves);
  }

  // --------------------------------------------------------------- token pools

  /** The parties to a withdrawal from a token pool and their token accounts; the vault has two. */
  datatype Parties = Parties(
    depositor: Pubkey,
    recipient: Pubkey,
    relayer: Pubkey,
    source: Pubkey,
    full: Pubkey,
    bare: Pubkey,
    recipientAccount: Pubkey,
    relayerAccount: Pubkey)
  {
    ghost predicate Fit<F>(env: Env<F>)
    {
      && depositor != env.vault && recipient != env.vault && relayer != env.vault && full != bare
      && env.owner(source) == depositor && env.Custody(full) && env.Custody(bare)
      && env.owner(recipientAccount) == recipient && env.owner(relayerAccount) == relayer
    }

    /** Only the depositor has tokens. */
    function Means(amount: u64): Balances
    {
      map[][recipientAccount := 0][relayerAccount := 0][full := 0][bare := 0][source := amount]
    }
  }

  lemma MeansSum(p: Parties, amount: u64)
    ensures Everything(p.Means(amount)) == amount
  {
    var all := (k: Pubkey) => true;
    var b1: Balances := map[][p.recipientAccount := 0];
    var b2 := b1[p.relayerAccount := 0];
    var b3 := b2[p.full := 0];
    var b4 := b3[p.bare := 0];
    SumPut(map[], all, p.recipientAccount, 0);
    SumPut(b1, all, p.relayerAccount, 0);
    SumPut(b2, all, p.full, 0);
    SumPut(b3, all, p.bare, 0);
    SumPut(b4, all, p.source, amount);
  }

  function NewTokenPool<F>(mint: Pubkey, terms: Terms, p: Parties): State<F>
  {
    State(p.depositor, mint, terms.denomination, terms.feeBps, false, [], {}, [], p.Means(terms.denomination), 0)
  }

  /** The first deposit into a token pool, from its opening. */
  lemma FirstTokenDeposit<F(!new)>(env: Env<F>, mint: Pubkey, terms: Terms, p: Parties, leaf: F)
    requires p.Fit(env) && mint != SYSTEM_PROGRAM && env.hashable(leaf)
    ensures var s0 := NewTokenPool(mint, terms, p);
      var r := Step(env, s0, DepositSpl(p.depositor, p.source, p.full, leaf));
      && r.Ok?
      && r.value == s0.(leaves := [leaf],
                        balances := p.Means(terms.denomination)[p.source := 0][p.full := terms.denomination])
  {
    Pow2Bound(0, env.depth);
    var s0: State<F> := NewTokenPool(mint, terms, p);
    assert s0.leaves + [leaf] == [leaf];
  }

  /**
   * A token pool is opened and one note is deposited into one of the vault's two accounts. The note's withdrawal
   * passes its checks, is paid from that account and refused from the other.
   */
  lemma BareAccountIsReached<F(!new)>(env: Env<F>, c: Circuit<F>, mint: Pubkey, terms: Terms, p: Parties,
                                      n: F, secret: F, x: F)
    returns (s0: State<F>, ixs: seq<Instruction<F>>, w: Withdrawal<F>)
    requires ProofsAreComplete(env, c) && p.Fit(env) && mint != SYSTEM_PROGRAM
    requires terms.Allowed() && terms.denomination > 0 && c.allows(x, Sides(0, env.depth))
    requires var leaf := c.note(n, secret, env.word(terms.denomination));
      env.hashable(leaf) && Root(env.H(), env.depth, [leaf]) != env.zero
    ensures Initial(s0) && OwnersFit(env, s0.tokenMint)
    ensures var s := Run(env, s0, ixs);
      && s.leaves == [c.note(n, secret, env.word(terms.denomination))] && Held(env, s) >= w.amount
      && CheckWithdrawal(env, s, w).Ok?
      && Step(env, s, WithdrawSpl(w, p.full, p.recipientAccount, p.relayerAccount)).Ok?
      && Step(env, s, WithdrawSpl(w, p.bare, p.recipientAccount, p.relayerAccount)) == Err(InsufficientFunds)
  {
    var leaf := c.note(n, secret, env.word(terms.denomination));
    var deposit := DepositSpl(p.depositor, p.source, p.full, leaf);
    s0, ixs := NewTokenPool(mint, terms, p), [] + [deposit];
    FirstTokenDeposit(env, mint, terms, p, leaf);
    RunSnoc(env, s0, [], deposit);
    var s := Run(env, s0, ixs);
    RunIsSound(env, s0, ixs);
    MeansSum(p, terms.denomination);
    Pow2Bound(0, env.depth);
    assert [leaf] + [] == [leaf];
    w := OwnerHasWithdrawal(env, c, s, [leaf], [], 0, n, secret, x, p.recipient, p.relayer);
    OneOfTwoAccountsRefuses(env, s, w, p.full, p.bare, p.recipientAccount, p.relayerAccount);
  }
}
