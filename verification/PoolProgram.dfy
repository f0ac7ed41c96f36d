/** The instruction handlers in place: each one is the step of the state machine, all or nothing. */
module PoolProgram {
  import opened IncrementalTree
  import opened Ledger
  import opened Pool
  import opened Words

  /** What a handler must have done: the step's result, and on failure nothing. */
  ghost predicate Done<F>(step: Result<State<F>, Error>, before: State<F>, after: State<F>, r: Result<(), Error>)
  {
    match step
    case Ok(s) => r == Ok(()) && after == s
    case Err(e) => r == Err(e) && after == before
  }

  class Program<F(==)> {
    const env: Env<F>
    const tree: MerkleTreeState<F>
    var nullifiers: set<F>
    var balances: Balances
    ghost var receipts: seq<Receipt<F>>
    ghost var inflow: nat

    ghost predicate Valid()
      reads this, tree, tree.filledSubtrees, tree.roots
    {
      && tree.Valid()
      && tree.pair == env.pair && tree.hashable == env.hashable && tree.zero == env.zero && tree.depth == env.depth
    }

    /** The state the handlers' fields stand for. */
    ghost function View(): State<F>
      reads this, tree
    {
      State(tree.authority, tree.tokenMint, tree.denomination, tree.relayerFeeBps, tree.paused,
            tree.leaves, nullifiers, receipts, balances, inflow)
    }

    constructor (env: Env<F>, authority: Pubkey, tokenMint: Pubkey, denomination: u64, relayerFeeBps: u16,
                 nullifiers: set<F>, balances: Balances)
      requires env.depth < 64
      ensures Valid() && fresh(tree) && fresh(tree.filledSubtrees) && fresh(tree.roots) && this.env == env
      ensures View() == State(authority, tokenMint, denomination, relayerFeeBps, false, [], nullifiers, [], balances, 0)
    {
      var account := new MerkleTreeState(env.pair, env.hashable, env.zero, env.depth,
                                         authority, tokenMint, denomination, relayerFeeBps);
      this.env, tree := env, account;
      this.nullifiers, this.balances := nullifiers, balances;
      receipts, inflow := [], 0;
    }

    // ------------------------------------------------------------------ admin

    method Pause(signer: Pubkey) returns (r: Result<(), Error>)
      requires Valid()
      modifies tree`paused
      ensures Valid() && Done(Step(env, old(View()), Instruction.Pause(signer)), old(View()), View(), r)
    {
      if signer != tree.authority {
        return Err(Unauthorized);
      }
      tree.paused := true;
      return Ok(());
    }

    method Unpause(signer: Pubkey) returns (r: Result<(), Error>)
      requires Valid()
      modifies tree`paused
      ensures Valid() && Done(Step(env, old(View()), Instruction.Unpause(signer)), old(View()), View(), r)
    {
      if signer != tree.authority {
        return Err(Unauthorized);
      }
      tree.paused := false;
      return Ok(());
    }

    method RotateAuthority(signer: Pubkey, newAuthority: Pubkey) returns (r: Result<(), Error>)
      requires Valid()
      modifies tree`authority
      ensures Valid()
      ensures Done(Step(env, old(View()), Instruction.RotateAuthority(signer, newAuthority)), old(View()), View(), r)
    {
      if signer != tree.authority {
        return Err(Unauthorized);
      }
      tree.authority := newAuthority;
      return Ok(());
    }

    // --------------------------------------------------------------- deposits

    /** The transfer, then the insertion; a full tree or a refused leaf takes the transfer back. */
    method DepositInto(from: Pubkey, to: Pubkey, commitment: F) returns (r: Result<(), Error>)
      requires Valid()
      modifies this`balances, tree`commitmentCount, tree`rootCursor, tree`leaves, tree.filledSubtrees, tree.roots
      ensures Valid() && Done(Deposit(env, old(View()), from, to, commitment), old(View()), View(), r)
    {
      var moved :- Transfer(balances, from, to, tree.denomination);
      var inserted := tree.Insert(commitment);
      if inserted.Err? {
        return Err(inserted.error);
      }
      balances := moved;
      return Ok(());
    }

    method DepositSol(depositor: Pubkey, commitment: F) returns (r: Result<(), Error>)
      requires Valid()
      modifies this`balances, tree`commitmentCount, tree`rootCursor, tree`leaves, tree.filledSubtrees, tree.roots
      ensures Valid()
      ensures Done(Step(env, old(View()), Instruction.DepositSol(depositor, commitment)), old(View()), View(), r)
    {
      if depositor == env.vault {
        return Err(MissingSignature);
      }
      if tree.paused {
        return Err(PoolPaused);
      }
      if tree.tokenMint != SYSTEM_PROGRAM {
        return Err(DenominationMismatch);
      }
      r := DepositInto(depositor, env.vault, commitment);
    }

    method DepositSpl(depositor: Pubkey, from: Pubkey, to: Pubkey, commitment: F) returns (r: Result<(), Error>)
      requires Valid()
      modifies this`balances, tree`commitmentCount, tree`rootCursor, tree`leaves, tree.filledSubtrees, tree.roots
      ensures Valid()
      ensures Done(Step(env, old(View()), Instruction.DepositSpl(depositor, from, to, commitment)),
                   old(View()), View(), r)
    {
      if depositor == env.vault {
        return Err(MissingSignature);
      }
      if from !in balances || to !in balances {
        return Err(DenominationMismatch);
      }
      if env.owner(from) != depositor || !env.Custody(to) {
        return Err(Unauthorized);
      }
      if tree.paused {
        return Err(PoolPaused);
      }
      if tree.tokenMint == SYSTEM_PROGRAM {
        return Err(DenominationMismatch);
      }
      r := DepositInto(from, to, commitment);
    }

    // ------------------------------------------------------------ withdrawals

    /** Guards and proof; the nullifier account is created by the caller once the payout is known to go through. */
    method Verify(w: Withdrawal<F>) returns (r: Result<(), Error>)
      requires Valid()
      ensures r == CheckWithdrawal(env, View(), w)
    {
      if w.nullifier in nullifiers {
        return Err(AccountInUse);
      }
      var known := tree.RootIsKnown(w.root);
      if !known {
        return Err(UnknownRoot);
      }
      if w.amount != tree.denomination {
        return Err(DenominationMismatch);
      }
      var inputs := PublicInputs(env, tree.relayerFeeBps, w);
      if !VerifyProof(env, w.proof, inputs) {
        return Err(InvalidProof);
      }
      return Ok(());
    }

    /** The lamport writes, one after the other on the current balances; a failed one undoes them all. */
    method MoveLamports(w: Withdrawal<F>, recipientAmount: u64, relayerCut: u64) returns (r: Result<Balances, Error>)
      ensures r == PaySol(balances, env.vault, w.recipient, w.relayer, w.amount, recipientAmount, relayerCut)
    {
      var lamports := balances;
      if Amount(lamports, env.vault) < w.amount {
        return Err(InvalidProof);
      }
      lamports := lamports[env.vault := Amount(lamports, env.vault) - w.amount];
      if Amount(lamports, w.recipient) + recipientAmount >= U64_LIMIT {
        return Err(InvalidProof);
      }
      lamports := lamports[w.recipient := Amount(lamports, w.recipient) + recipientAmount];
      if relayerCut > 0 {
        if Amount(lamports, w.relayer) + relayerCut >= U64_LIMIT {
          return Err(InvalidProof);
        }
        lamports := lamports[w.relayer := Amount(lamports, w.relayer) + relayerCut];
      }
      return Ok(lamports);
    }

    method WithdrawSol(w: Withdrawal<F>) returns (r: Result<(), Error>)
      requires Valid()
      modifies this`nullifiers, this`receipts, this`inflow, this`balances
      ensures Valid() && Done(Step(env, old(View()), Instruction.WithdrawSol(w)), old(View()), View(), r)
    {
      if w.relayer == env.vault {
        return Err(MissingSignature);
      }
      if tree.paused {
        return Err(PoolPaused);
      }
      if tree.tokenMint != SYSTEM_PROGRAM {
        return Err(DenominationMismatch);
      }
      var checked := Verify(w);
      if checked.Err? {
        return checked;
      }
      var split :- SplitPayout(w.amount, tree.relayerFeeBps);
      var (recipientAmount, relayerCut) := split;

      var lamports :- MoveLamports(w, recipientAmount, relayerCut);
      Record(w.nullifier, lamports, w.recipient, w.relayer, recipientAmount, relayerCut);
      return Ok(());
    }

    method WithdrawSpl(w: Withdrawal<F>, from: Pubkey, recipientAccount: Pubkey, relayerAccount: Pubkey)
      returns (r: Result<(), Error>)
      requires Valid()
      modifies this`nullifiers, this`receipts, this`inflow, this`balances
      ensures Valid()
      ensures Done(Step(env, old(View()), Instruction.WithdrawSpl(w, from, recipientAccount, relayerAccount)),
                   old(View()), View(), r)
    {
      if w.relayer == env.vault {
        return Err(MissingSignature);
      }
      if from !in balances || recipientAccount !in balances || relayerAccount !in balances {
        return Err(DenominationMismatch);
      }
      if env.owner(relayerAccount) != w.relayer || !env.Custody(from) || env.owner(recipientAccount) != w.recipient {
        return Err(Unauthorized);
      }
      if tree.paused {
        return Err(PoolPaused);
      }
      if tree.tokenMint == SYSTEM_PROGRAM {
        return Err(DenominationMismatch);
      }
      var checked := Verify(w);
      if checked.Err? {
        return checked;
      }
      var split :- SplitPayout(w.amount, tree.relayerFeeBps);
      var (recipientAmount, relayerCut) := split;

      var tokens := balances;
      tokens :- Transfer(tokens, from, recipientAccount, recipientAmount);
      if relayerCut > 0 {
        tokens :- Transfer(tokens, from, relayerAccount, relayerCut);
      }
      Record(w.nullifier, tokens, recipientAccount, relayerAccount, recipientAmount, relayerCut);
      return Ok(());
    }

    /** Commit a withdrawal: the nullifier account now exists and the balances are the moved ones. */
    method Record(nullifier: F, moved: Balances, recipient: Pubkey, relayer: Pubkey, recipientAmount: u64,
                  relayerCut: u64)
      requires Valid()
      modifies this`nullifiers, this`receipts, this`inflow, this`balances
      ensures Valid()
      ensures View() ==
        RecordWithdrawal(env, old(View()), nullifier, moved, recipient, relayer, recipientAmount, relayerCut)
    {
      nullifiers := nullifiers + {nullifier};
      balances := moved;
      receipts := receipts + [Receipt(nullifier, recipientAmount, relayerCut)];
      inflow := inflow + (if env.Custody(recipient) then recipientAmount else 0)
                       + (if env.Custody(relayer) then relayerCut else 0);
    }
  }

  /** `initialize`: above the fee cap no pool comes into being. */
  method InitializePool<F(==)>(env: Env<F>, authority: Pubkey, tokenMint: Pubkey, denomination: u64, relayerFeeBps: u16,
                               nullifiers: set<F>, balances: Balances)
    returns (r: Result<Program<F>, Error>)
    requires env.depth < 64
    ensures match Initialize(authority, tokenMint, denomination, relayerFeeBps, nullifiers, balances)
            case Ok(s) => r.Ok? && r.value.Valid() && r.value.env == env && r.value.View() == s
            case Err(e) => r == Err(e)
  {
    if relayerFeeBps > MAX_RELAYER_FEE_BPS {
      return Err(FeeBpsTooHigh);
    }
    var pool := new Program(env, authority, tokenMint, denomination, relayerFeeBps, nullifiers, balances);
    return Ok(pool);
  }
}
