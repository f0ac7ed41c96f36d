/** Every run of the pool: fixed terms, conserved funds, exact payouts, no nullifier twice. */
module Accounting {
  import opened Arithmetic
  import opened Ledger
  import opened Pool
  import opened Words

  ghost function Held<F>(env: Env<F>, s: State<F>): nat
  {
    Sum(s.balances, env.Custody)
  }

  ghost function Everything(b: Balances): nat
  {
    Sum(b, (k: Pubkey) => true)
  }

  /** In a native pool an account belongs to itself, so the vault is its only custody account. */
  ghost predicate OwnersFit<F>(env: Env<F>, tokenMint: Pubkey)
  {
    tokenMint == SYSTEM_PROGRAM ==> forall k :: env.owner(k) == k
  }

  /** The terms set by `initialize` and the deposits made so far. */
  ghost predicate TermsKept<F>(s0: State<F>, s: State<F>)
  {
    && s.tokenMint == s0.tokenMint && s.denomination == s0.denomination
    && s.relayerFeeBps == s0.relayerFeeBps <= MAX_RELAYER_FEE_BPS
  }

  /** The vault's books: deposits and inflow in, one denomination out per withdrawal. */
  ghost predicate BooksBalance<F>(env: Env<F>, s0: State<F>, s: State<F>)
  {
    && |s.leaves| <= Pow2(env.depth)
    && Held(env, s) + s.denomination * |s.receipts| == Held(env, s0) + s.denomination * |s.leaves| + s.inflow
    && Everything(s.balances) == Everything(s0.balances)
  }

  /** Every receipt is the exact split of one denomination. */
  ghost predicate PaidExactly<F>(s: State<F>)
  {
    forall k :: 0 <= k < |s.receipts| ==>
      SplitPayout(s.denomination, s.relayerFeeBps) == Ok((s.receipts[k].toRecipient, s.receipts[k].toRelayer))
  }

  /** Recorded nullifiers are on chain and pairwise different. */
  ghost predicate SpentOnce<F>(s: State<F>)
  {
    && (forall k :: 0 <= k < |s.receipts| ==> s.receipts[k].nullifier in s.nullifiers)
    && (forall j, k :: 0 <= j < k < |s.receipts| ==> s.receipts[j].nullifier != s.receipts[k].nullifier)
  }

  ghost predicate Sound<F>(env: Env<F>, s0: State<F>, s: State<F>)
  {
    TermsKept(s0, s) && BooksBalance(env, s0, s) && PaidExactly(s) && SpentOnce(s)
  }

  // ------------------------------------------------------------------ payouts

  /** Whatever accounts coincide, a native payout moves exactly its parts. */
  lemma PaySolSum(b: Balances, vault: Pubkey, recipient: Pubkey, relayer: Pubkey,
                  amount: u64, toRecipient: u64, toRelayer: u64, keep: Pubkey -> bool)
    requires PaySol(b, vault, recipient, relayer, amount, toRecipient, toRelayer).Ok?
    ensures Sum(PaySol(b, vault, recipient, relayer, amount, toRecipient, toRelayer).value, keep)
         == Sum(b, keep) - (if keep(vault) then amount else 0)
            + (if keep(recipient) then toRecipient else 0) + (if keep(relayer) then toRelayer else 0)
  {
    DebitSum(b, vault, amount, InvalidProof, keep);
    var b1 := Debit(b, vault, amount, InvalidProof).value;
    CreditSum(b1, recipient, toRecipient, keep);
    if toRelayer > 0 {
      CreditSum(Credit(b1, recipient, toRecipient).value, relayer, toRelayer, keep);
    }
  }

  lemma PaySplSum(b: Balances, from: Pubkey, recipient: Pubkey, relayer: Pubkey, toRecipient: u64, toRelayer: u64,
                  keep: Pubkey -> bool)
    requires PaySpl(b, from, recipient, relayer, toRecipient, toRelayer).Ok?
    ensures Sum(PaySpl(b, from, recipient, relayer, toRecipient, toRelayer).value, keep)
         == Sum(b, keep) - (if keep(from) then toRecipient + toRelayer else 0)
            + (if keep(recipient) then toRecipient else 0) + (if keep(relayer) then toRelayer else 0)
  {
    TransferSum(b, from, recipient, toRecipient, keep);
    if toRelayer > 0 {
      TransferSum(Transfer(b, from, recipient, toRecipient).value, from, relayer, toRelayer, keep);
    }
  }

  /** With fewer lamports in all than a word holds, a covered payout never overflows, whoever gets it. */
  lemma CoveredPayoutGoesThrough(b: Balances, vault: Pubkey, recipient: Pubkey, relayer: Pubkey,
                                 amount: u64, toRecipient: u64, toRelayer: u64)
    requires Everything(b) < U64_LIMIT && amount <= Amount(b, vault) && toRecipient + toRelayer == amount
    ensures PaySol(b, vault, recipient, relayer, amount, toRecipient, toRelayer).Ok?
  {
    var all := (k: Pubkey) => true;
    DebitSum(b, vault, amount, InvalidProof, all);
    var b1 := Debit(b, vault, amount, InvalidProof).value;
    SumAtLeast(b1, all, recipient);
    CreditSum(b1, recipient, toRecipient, all);
    var b2 := Credit(b1, recipient, toRecipient).value;
    SumAtLeast(b2, all, relayer);
  }

  /** What a token payout needs in its source: the sum, or the larger part if the first transfer is to itself. */
  function TokensNeeded(from: Pubkey, recipient: Pubkey, toRecipient: u64, toRelayer: u64): nat
  {
    if from != recipient then toRecipient + toRelayer else if toRecipient > toRelayer then toRecipient else toRelayer
  }

  /** Two transfers in a row go through exactly when their source holds what they need. */
  lemma TokenPayoutGoesThroughIff(b: Balances, from: Pubkey, recipient: Pubkey, relayer: Pubkey, toRecipient: u64,
                                  toRelayer: u64)
    requires Everything(b) < U64_LIMIT
    ensures PaySpl(b, from, recipient, relayer, toRecipient, toRelayer).Ok?
      <==> Amount(b, from) >= TokensNeeded(from, recipient, toRecipient, toRelayer)
  {
    CoveredTransferGoesThrough(b, from, recipient, toRecipient);
    if Amount(b, from) >= toRecipient {
      TransferSum(b, from, recipient, toRecipient, (k: Pubkey) => true);
      CoveredTransferGoesThrough(Transfer(b, from, recipient, toRecipient).value, from, relayer, toRelayer);
    }
  }

  lemma CoveredTransferGoesThrough(b: Balances, from: Pubkey, to: Pubkey, amount: u64)
    requires Everything(b) < U64_LIMIT
    ensures Transfer(b, from, to, amount).Ok? <==> Amount(b, from) >= amount
  {
    if Amount(b, from) >= amount {
      var all := (k: Pubkey) => true;
      DebitSum(b, from, amount, InsufficientFunds, all);
      SumAtLeast(Debit(b, from, amount, InsufficientFunds).value, all, to);
    }
  }

  // -------------------------------------------------------------------- steps

  lemma DepositKeeps<F>(env: Env<F>, s0: State<F>, s: State<F>, from: Pubkey, to: Pubkey, commitment: F)
    requires Sound(env, s0, s) && Deposit(env, s, from, to, commitment).Ok?
    requires !env.Custody(from) && env.Custody(to)
    ensures Sound(env, s0, Deposit(env, s, from, to, commitment).value)
  {
    TransferSum(s.balances, from, to, s.denomination, env.Custody);
    TransferSum(s.balances, from, to, s.denomination, (k: Pubkey) => true);
    assert s.denomination * (|s.leaves| + 1) == s.denomination * |s.leaves| + s.denomination;
  }

  lemma RecordKeeps<F>(env: Env<F>, s0: State<F>, s: State<F>, nullifier: F, b: Balances,
                       recipient: Pubkey, relayer: Pubkey, toRecipient: u64, toRelayer: u64)
    requires Sound(env, s0, s) && nullifier !in s.nullifiers
    requires SplitPayout(s.denomination, s.relayerFeeBps) == Ok((toRecipient, toRelayer))
    requires Everything(b) == Everything(s.balances)
    requires Sum(b, env.Custody) == Held(env, s) - s.denomination
      + (if env.Custody(recipient) then toRecipient else 0) + (if env.Custody(relayer) then toRelayer else 0)
    ensures Sound(env, s0, RecordWithdrawal(env, s, nullifier, b, recipient, relayer, toRecipient, toRelayer))
  {
    assert s.denomination * (|s.receipts| + 1) == s.denomination * |s.receipts| + s.denomination;
  }

  lemma WithdrawSolKeeps<F>(env: Env<F>, s0: State<F>, s: State<F>, w: Withdrawal<F>)
    requires Sound(env, s0, s) && OwnersFit(env, s.tokenMint) && StepWithdrawSol(env, s, w).Ok?
    ensures Sound(env, s0, StepWithdrawSol(env, s, w).value)
  {
    SplitPayoutIsExact(w.amount, s.relayerFeeBps);
    var split := SplitPayout(w.amount, s.relayerFeeBps).value;
    var b := PaySol(s.balances, env.vault, w.recipient, w.relayer, w.amount, split.0, split.1).value;
    PaySolSum(s.balances, env.vault, w.recipient, w.relayer, w.amount, split.0, split.1, env.Custody);
    PaySolSum(s.balances, env.vault, w.recipient, w.relayer, w.amount, split.0, split.1, (k: Pubkey) => true);
    RecordKeeps(env, s0, s, w.nullifier, b, w.recipient, w.relayer, split.0, split.1);
  }

  lemma WithdrawSplKeeps<F>(env: Env<F>, s0: State<F>, s: State<F>, w: Withdrawal<F>,
                            from: Pubkey, recipientAccount: Pubkey, relayerAccount: Pubkey)
    requires Sound(env, s0, s) && StepWithdrawSpl(env, s, w, from, recipientAccount, relayerAccount).Ok?
    ensures Sound(env, s0, StepWithdrawSpl(env, s, w, from, recipientAccount, relayerAccount).value)
  {
    SplitPayoutIsExact(w.amount, s.relayerFeeBps);
    var split := SplitPayout(w.amount, s.relayerFeeBps).value;
    var b := PaySpl(s.balances, from, recipientAccount, relayerAccount, split.0, split.1).value;
    PaySplSum(s.balances, from, recipientAccount, relayerAccount, split.0, split.1, env.Custody);
    PaySplSum(s.balances, from, recipientAccount, relayerAccount, split.0, split.1, (k: Pubkey) => true);
    RecordKeeps(env, s0, s, w.nullifier, b, recipientAccount, relayerAccount, split.0, split.1);
  }

  lemma OutsideTransferKeeps<F>(env: Env<F>, s0: State<F>, s: State<F>, signer: Pubkey, from: Pubkey, to: Pubkey,
                                amount: u64)
    requires Sound(env, s0, s) && StepOutsideTransfer(env, s, signer, from, to, amount).Ok?
    ensures Sound(env, s0, StepOutsideTransfer(env, s, signer, from, to, amount).value)
  {
    TransferSum(s.balances, from, to, amount, env.Custody);
    TransferSum(s.balances, from, to, amount, (k: Pubkey) => true);
  }

  lemma StepKeeps<F>(env: Env<F>, s0: State<F>, s: State<F>, ix: Instruction<F>)
    requires Sound(env, s0, s) && OwnersFit(env, s.tokenMint)
    ensures Sound(env, s0, Apply(env, s, ix))
  {
    if Step(env, s, ix).Ok? {
      match ix
      case DepositSol(depositor, commitment) => DepositKeeps(env, s0, s, depositor, env.vault, commitment);
      case DepositSpl(depositor, from, to, commitment) => DepositKeeps(env, s0, s, from, to, commitment);
      case WithdrawSol(w) => WithdrawSolKeeps(env, s0, s, w);
      case WithdrawSpl(w, from, recipientAccount, relayerAccount) =>
        WithdrawSplKeeps(env, s0, s, w, from, recipientAccount, relayerAccount);
      case OutsideTransfer(signer, from, to, amount) => OutsideTransferKeeps(env, s0, s, signer, from, to, amount);
      case _ =>
    }
  }

  // --------------------------------------------------------------------- runs

  /** The state `initialize` leaves behind. */
  ghost predicate Initial<F>(s0: State<F>)
  {
    Initialize(s0.authority, s0.tokenMint, s0.denomination, s0.relayerFeeBps, s0.nullifiers, s0.balances) == Ok(s0)
  }

  /** Over every run: terms fixed, funds conserved, payouts exact, no nullifier recorded twice. */
  lemma {:induction false} RunIsSound<F>(env: Env<F>, s0: State<F>, ixs: seq<Instruction<F>>)
    requires Initial(s0) && OwnersFit(env, s0.tokenMint)
    ensures Sound(env, s0, Run(env, s0, ixs))
  {
    if ixs != [] {
      var earlier := ixs[..|ixs| - 1];
      RunIsSound(env, s0, earlier);
      StepKeeps(env, s0, Run(env, s0, earlier), ixs[|ixs| - 1]);
    }
  }

  ghost function Takings<F>(receipts: seq<Receipt<F>>): nat
  {
    if receipts == [] then 0 else Takings(receipts[..|receipts| - 1]) + receipts[|receipts| - 1].toRelayer
  }

  lemma {:induction false} TakingsOf<F>(receipts: seq<Receipt<F>>, cut: u64)
    requires forall k :: 0 <= k < |receipts| ==> receipts[k].toRelayer == cut
    ensures Takings(receipts) == |receipts| * cut
  {
    if receipts != [] {
      TakingsOf(receipts[..|receipts| - 1], cut);
      assert |receipts| * cut == (|receipts| - 1) * cut + cut;
    }
  }

  /** What relayers took over a run is never above the exact share, and less than one unit per withdrawal below it. */
  lemma TakingsNearShare<F>(env: Env<F>, s0: State<F>, ixs: seq<Instruction<F>>)
    requires Initial(s0) && OwnersFit(env, s0.tokenMint)
    ensures var s := Run(env, s0, ixs);
      var n := |s.receipts|;
      var share := n * (s0.denomination * s0.relayerFeeBps);
      && Takings(s.receipts) * BPS_WHOLE <= share
      && (n > 0 ==> share < (Takings(s.receipts) + n) * BPS_WHOLE)
  {
    RunIsSound(env, s0, ixs);
    var s := Run(env, s0, ixs);
    SplitPayoutIsExact(s.denomination, s.relayerFeeBps);
    var cut := SplitPayout(s.denomination, s.relayerFeeBps).value.1;
    TakingsOf(s.receipts, cut);
    ScaleFloor(|s.receipts|, cut, s.denomination * s.relayerFeeBps, BPS_WHOLE);
  }

  lemma ScaleFloor(n: nat, q: nat, x: nat, d: nat)
    requires q * d <= x < (q + 1) * d
    ensures n * q * d <= n * x
    ensures n > 0 ==> n * x < (n * q + n) * d
  {
    assert n * (q * d) <= n * x;
    assert n * q * d == n * (q * d);
    if n > 0 {
      assert n * x < n * ((q + 1) * d);
      assert (n * q + n) * d == n * ((q + 1) * d);
    }
  }

  // ------------------------------------------------------------- token payouts

  /** The accounts a token withdrawal names exist and belong to vault, recipient and relayer. */
  predicate AccountsFit<F>(env: Env<F>, s: State<F>, w: Withdrawal<F>, from: Pubkey, recipientAccount: Pubkey,
                           relayerAccount: Pubkey)
  {
    && from in s.balances && recipientAccount in s.balances && relayerAccount in s.balances
    && env.Custody(from) && env.owner(recipientAccount) == w.recipient && env.owner(relayerAccount) == w.relayer
  }

  /** In a token pool a withdrawal that passes the checks goes through exactly when the named source holds enough. */
  lemma AcceptedTokensArePaidIff<F>(env: Env<F>, s0: State<F>, ixs: seq<Instruction<F>>, w: Withdrawal<F>,
                                    from: Pubkey, recipientAccount: Pubkey, relayerAccount: Pubkey)
    requires Initial(s0) && s0.tokenMint != SYSTEM_PROGRAM && Everything(s0.balances) < U64_LIMIT
    requires w.relayer != env.vault && !Run(env, s0, ixs).paused
    ensures var s := Run(env, s0, ixs);
      var split := SplitPayout(w.amount, s.relayerFeeBps);
      && split.Ok?
      && (Step(env, s, WithdrawSpl(w, from, recipientAccount, relayerAccount)).Ok? <==>
          && AccountsFit(env, s, w, from, recipientAccount, relayerAccount)
          && CheckWithdrawal(env, s, w).Ok?
          && Amount(s.balances, from) >= TokensNeeded(from, recipientAccount, split.value.0, split.value.1))
  {
    RunIsSound(env, s0, ixs);
    var s := Run(env, s0, ixs);
    SplitPayoutIsExact(w.amount, s.relayerFeeBps);
    var split := SplitPayout(w.amount, s.relayerFeeBps).value;
    TokenPayoutGoesThroughIff(s.balances, from, recipientAccount, relayerAccount, split.0, split.1);
  }

  /** Once accounts and checks are in order, the payout alone decides. */
  lemma TokenStepIsPayout<F>(env: Env<F>, s: State<F>, w: Withdrawal<F>, from: Pubkey, recipientAccount: Pubkey,
                             relayerAccount: Pubkey)
    requires AccountsFit(env, s, w, from, recipientAccount, relayerAccount) && CheckWithdrawal(env, s, w).Ok?
    requires s.tokenMint != SYSTEM_PROGRAM && !s.paused && w.relayer != env.vault
    requires SplitPayout(w.amount, s.relayerFeeBps).Ok?
    ensures var split := SplitPayout(w.amount, s.relayerFeeBps).value;
      var payout := PaySpl(s.balances, from, recipientAccount, relayerAccount, split.0, split.1);
      var r := Step(env, s, WithdrawSpl(w, from, recipientAccount, relayerAccount));
      (r.Ok? <==> payout.Ok?) && (payout.Err? ==> r == Err(payout.error))
  {
  }

  /** A withdrawal that passes its checks is paid from an account that holds its amount, and refused from a bare one. */
  lemma OneOfTwoAccountsRefuses<F>(env: Env<F>, s: State<F>, w: Withdrawal<F>,
                                   full: Pubkey, bare: Pubkey, recipientAccount: Pubkey, relayerAccount: Pubkey)
    requires CheckWithdrawal(env, s, w).Ok? && w.amount > 0 && s.relayerFeeBps <= BPS_WHOLE
    requires s.tokenMint != SYSTEM_PROGRAM && !s.paused && w.relayer != env.vault && w.recipient != env.vault
    requires AccountsFit(env, s, w, full, recipientAccount, relayerAccount)
    requires AccountsFit(env, s, w, bare, recipientAccount, relayerAccount)
    requires Everything(s.balances) < U64_LIMIT && Amount(s.balances, full) >= w.amount && s.balances[bare] == 0
    ensures Held(env, s) >= w.amount
    ensures Step(env, s, WithdrawSpl(w, full, recipientAccount, relayerAccount)).Ok?
    ensures Step(env, s, WithdrawSpl(w, bare, recipientAccount, relayerAccount)) == Err(InsufficientFunds)
  {
    SplitPayoutIsExact(w.amount, s.relayerFeeBps);
    var split := SplitPayout(w.amount, s.relayerFeeBps).value;
    TokenPayoutGoesThroughIff(s.balances, full, recipientAccount, relayerAccount, split.0, split.1);
    BareAccountRefuses(s.balances, bare, recipientAccount, relayerAccount, split.0, split.1);
    TokenStepIsPayout(env, s, w, full, recipientAccount, relayerAccount);
    TokenStepIsPayout(env, s, w, bare, recipientAccount, relayerAccount);
    SumAtLeast(s.balances, env.Custody, full);
  }

  lemma BareAccountRefuses(b: Balances, bare: Pubkey, recipient: Pubkey, relayer: Pubkey, x: u64, y: u64)
    requires x + y > 0 && Amount(b, bare) == 0 && recipient != bare && Everything(b) < U64_LIMIT
    ensures PaySpl(b, bare, recipient, relayer, x, y) == Err(InsufficientFunds)
  {
    CoveredTransferGoesThrough(b, bare, recipient, x);
  }
}
