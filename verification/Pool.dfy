/** The pool as a state machine: one atomic step per instruction, and runs of steps. */
module Pool {
  import opened Arithmetic
  import opened FullTree
  import opened IncrementalTree
  import opened Ledger
  import opened Words

  const MAX_RELAYER_FEE_BPS: u16 := 1000
  const PROOF_LENGTH := 256

  /** What the program takes from outside: the hashes, the pairing check and the vault's address. */
  datatype Env<!F> = Env(
    depth: nat,
    zero: F,
    pair: (F, F) -> F,
    hashable: F -> bool,
    word: u64 -> F,
    key: Pubkey -> F,
    groth16: (Bytes, Bytes, Bytes, seq<F>) -> bool,
    vault: Pubkey,
    owner: Pubkey -> Pubkey)
  {
    ghost function H(): Hashing<F>
    {
      ZeroHashing(pair, zero)
    }

    /** The accounts the vault owns: itself in a native pool, its token accounts otherwise. */
    predicate Custody(account: Pubkey)
    {
      owner(account) == vault
    }
  }

  /** An accepted withdrawal: the spent nullifier and the two payouts. */
  datatype Receipt<F> = Receipt(nullifier: F, toRecipient: u64, toRelayer: u64)

  /** `inflow` adds up what reached the vault's accounts other than by a deposit. */
  datatype State<F(==)> = State(
    authority: Pubkey,
    tokenMint: Pubkey,
    denomination: u64,
    relayerFeeBps: u16,
    paused: bool,
    leaves: seq<F>,
    nullifiers: set<F>,
    receipts: seq<Receipt<F>>,
    balances: Balances,
    inflow: nat)

  datatype Withdrawal<F> = Withdrawal(
    relayer: Pubkey,
    proof: Bytes,
    root: F,
    nullifier: F,
    recipient: Pubkey,
    amount: u64)

  datatype Instruction<F> =
    | DepositSol(depositor: Pubkey, commitment: F)
    | DepositSpl(depositor: Pubkey, from: Pubkey, to: Pubkey, commitment: F)
    | WithdrawSol(w: Withdrawal<F>)
    | WithdrawSpl(w: Withdrawal<F>, from: Pubkey, recipientAccount: Pubkey, relayerAccount: Pubkey)
    | Pause(signer: Pubkey)
    | Unpause(signer: Pubkey)
    | RotateAuthority(signer: Pubkey, newAuthority: Pubkey)
      // a transfer by some other program, and a nullifier recorded by another pool
    | OutsideTransfer(signer: Pubkey, from: Pubkey, to: Pubkey, amount: u64)
    | OtherPoolSpends(nullifier: F)

  // ------------------------------------------------------------------ payouts

  const U128_LIMIT: int := 0x1_0000_0000_0000_0000_0000_0000_0000_0000
  const BPS_WHOLE: int := 10_000

  /** Recipient amount and relayer cut, with the u128 product and the cast to u64 written out. */
  function SplitPayout(amount: u64, feeBps: u16): Result<(u64, u64), Error>
  {
    var product := amount * feeBps;
    if product >= U128_LIMIT then Err(InvalidProof)
    else CutFrom(amount, (product / BPS_WHOLE) % U64_LIMIT)
  }

  function CutFrom(amount: u64, cut: u64): Result<(u64, u64), Error>
  {
    if amount < cut then Err(InvalidProof) else Ok((amount - cut, cut))
  }

  /** Up to a fee of the whole, nothing overflows or is cut off: the parts add up, and the cut is the floor. */
  lemma SplitPayoutIsExact(amount: u64, feeBps: u16)
    requires feeBps <= BPS_WHOLE
    ensures var r := SplitPayout(amount, feeBps);
      && r.Ok? && r.value.0 + r.value.1 == amount
      && r.value.1 * BPS_WHOLE <= amount * feeBps < (r.value.1 + 1) * BPS_WHOLE
  {
    var product := amount * feeBps;
    ProductMonotone(amount, feeBps, BPS_WHOLE);
    var cut := product / BPS_WHOLE;
    FloorOf(product, BPS_WHOLE);
    assert 0 <= cut <= amount;
  }

  lemma ProductMonotone(a: nat, x: nat, y: nat)
    requires x <= y
    ensures 0 <= a * x <= a * y
  {
  }

  lemma FloorOf(x: nat, d: nat)
    requires d > 0
    ensures 0 <= x / d * d <= x < (x / d + 1) * d
  {
  }

  /** Lamports leave the vault, then reach the recipient, then the relayer if there is a cut. */
  function PaySol(b: Balances, vault: Pubkey, recipient: Pubkey, relayer: Pubkey,
                  amount: u64, toRecipient: u64, toRelayer: u64): Result<Balances, Error>
  {
    var b1 :- Debit(b, vault, amount, InvalidProof);
    var b2 :- Credit(b1, recipient, toRecipient);
    if toRelayer > 0 then Credit(b2, relayer, toRelayer) else Ok(b2)
  }

  /** Two token transfers in sequence, the second one skipped without a cut. */
  function PaySpl(b: Balances, from: Pubkey, recipient: Pubkey, relayer: Pubkey, toRecipient: u64,
                  toRelayer: u64): Result<Balances, Error>
  {
    var b1 :- Transfer(b, from, recipient, toRecipient);
    if toRelayer > 0 then Transfer(b1, from, relayer, toRelayer) else Ok(b1)
  }

  // ------------------------------------------------------------- instructions

  /** `initialize`: the fee cap, then every field. */
  function Initialize<F>(authority: Pubkey, tokenMint: Pubkey, denomination: u64, feeBps: u16,
                         nullifiers: set<F>, balances: Balances): (r: Result<State<F>, Error>)
    ensures r.Ok? <==> feeBps <= MAX_RELAYER_FEE_BPS
  {
    if feeBps > MAX_RELAYER_FEE_BPS then Err(FeeBpsTooHigh)
    else Ok(State(authority, tokenMint, denomination, feeBps, false, [], nullifiers, [], balances, 0))
  }

  ghost function Deposit<F>(env: Env<F>, s: State<F>, from: Pubkey, to: Pubkey, commitment: F): Result<State<F>, Error>
  {
    var b :- Transfer(s.balances, from, to, s.denomination);
    if |s.leaves| >= Pow2(env.depth) || !env.hashable(commitment) then Err(TreeFull)
    else Ok(s.(balances := b, leaves := s.leaves + [commitment]))
  }

  /** The six public inputs in circuit order. */
  function PublicInputs<F>(env: Env<F>, feeBps: u16, w: Withdrawal<F>): seq<F>
  {
    [w.root, w.nullifier, env.key(w.recipient), env.word(w.amount), env.key(w.relayer), env.word(feeBps)]
  }

  /** The inline verifier: exactly 256 bytes, split 64, 128, 64. */
  predicate VerifyProof<F>(env: Env<F>, proof: Bytes, inputs: seq<F>)
  {
    |proof| == PROOF_LENGTH && env.groth16(proof[0..64], proof[64..192], proof[192..256], inputs)
  }

  /** The guards of `verify_and_record` and of the nullifier account, in order. */
  ghost function CheckWithdrawal<F>(env: Env<F>, s: State<F>, w: Withdrawal<F>): Result<(), Error>
  {
    if w.nullifier in s.nullifiers then Err(AccountInUse)
    else if !Known(env.H(), env.depth, s.leaves, w.root) then Err(UnknownRoot)
    else if w.amount != s.denomination then Err(DenominationMismatch)
    else if !VerifyProof(env, w.proof, PublicInputs(env, s.relayerFeeBps, w)) then Err(InvalidProof)
    else Ok(())
  }

  function RecordWithdrawal<F>(env: Env<F>, s: State<F>, nullifier: F, b: Balances,
                               recipient: Pubkey, relayer: Pubkey, toRecipient: u64, toRelayer: u64): State<F>
  {
    s.(nullifiers := s.nullifiers + {nullifier},
       receipts := s.receipts + [Receipt(nullifier, toRecipient, toRelayer)],
       balances := b,
       inflow := s.inflow + (if env.Custody(recipient) then toRecipient else 0)
                          + (if env.Custody(relayer) then toRelayer else 0))
  }

  ghost function StepDepositSol<F>(env: Env<F>, s: State<F>, depositor: Pubkey, commitment: F): Result<State<F>, Error>
  {
    if depositor == env.vault then Err(MissingSignature)
    else if s.paused then Err(PoolPaused)
    else if s.tokenMint != SYSTEM_PROGRAM then Err(DenominationMismatch)
    else Deposit(env, s, depositor, env.vault, commitment)
  }

  ghost function StepDepositSpl<F>(env: Env<F>, s: State<F>, depositor: Pubkey, from: Pubkey, to: Pubkey,
                                   commitment: F): Result<State<F>, Error>
  {
    if depositor == env.vault then Err(MissingSignature)
    else if from !in s.balances || to !in s.balances then Err(DenominationMismatch)
    else if env.owner(from) != depositor || !env.Custody(to) then Err(Unauthorized)
    else if s.paused then Err(PoolPaused)
    else if s.tokenMint == SYSTEM_PROGRAM then Err(DenominationMismatch)
    else Deposit(env, s, from, to, commitment)
  }

  ghost function StepWithdrawSol<F>(env: Env<F>, s: State<F>, w: Withdrawal<F>): Result<State<F>, Error>
  {
    if w.relayer == env.vault then Err(MissingSignature)
    else if s.paused then Err(PoolPaused)
    else if s.tokenMint != SYSTEM_PROGRAM then Err(DenominationMismatch)
    else
      var checked :- CheckWithdrawal(env, s, w);
      var split :- SplitPayout(w.amount, s.relayerFeeBps);
      var b :- PaySol(s.balances, env.vault, w.recipient, w.relayer, w.amount, split.0, split.1);
      Ok(RecordWithdrawal(env, s, w.nullifier, b, w.recipient, w.relayer, split.0, split.1))
  }

  ghost function StepWithdrawSpl<F>(env: Env<F>, s: State<F>, w: Withdrawal<F>, from: Pubkey, recipientAccount: Pubkey,
                                    relayerAccount: Pubkey): Result<State<F>, Error>
  {
    if w.relayer == env.vault then Err(MissingSignature)
    else if from !in s.balances || recipientAccount !in s.balances || relayerAccount !in s.balances
    then Err(DenominationMismatch)
    else if env.owner(relayerAccount) != w.relayer || !env.Custody(from) || env.owner(recipientAccount) != w.recipient
    then Err(Unauthorized)
    else if s.paused then Err(PoolPaused)
    else if s.tokenMint == SYSTEM_PROGRAM then Err(DenominationMismatch)
    else
      var checked :- CheckWithdrawal(env, s, w);
      var split :- SplitPayout(w.amount, s.relayerFeeBps);
      var b :- PaySpl(s.balances, from, recipientAccount, relayerAccount, split.0, split.1);
      Ok(RecordWithdrawal(env, s, w.nullifier, b, recipientAccount, relayerAccount, split.0, split.1))
  }

  /** Transfers outside the program are signed by the account's owner, which the vault never does. */
  function StepOutsideTransfer<F>(env: Env<F>, s: State<F>, signer: Pubkey, from: Pubkey, to: Pubkey,
                                  amount: u64): Result<State<F>, Error>
  {
    if signer == env.vault || env.owner(from) != signer then Err(MissingSignature)
    else
      var b :- Transfer(s.balances, from, to, amount);
      Ok(s.(balances := b, inflow := s.inflow + (if env.Custody(to) then amount else 0)))
  }

  ghost function Step<F>(env: Env<F>, s: State<F>, ix: Instruction<F>): Result<State<F>, Error>
  {
    match ix
    case DepositSol(depositor, commitment) => StepDepositSol(env, s, depositor, commitment)
    case DepositSpl(depositor, from, to, commitment) => StepDepositSpl(env, s, depositor, from, to, commitment)
    case WithdrawSol(w) => StepWithdrawSol(env, s, w)
    case WithdrawSpl(w, from, recipientAccount, relayerAccount) =>
      StepWithdrawSpl(env, s, w, from, recipientAccount, relayerAccount)
    case Pause(signer) => if signer != s.authority then Err(Unauthorized) else Ok(s.(paused := true))
    case Unpause(signer) => if signer != s.authority then Err(Unauthorized) else Ok(s.(paused := false))
    case RotateAuthority(signer, newAuthority) =>
      if signer != s.authority then Err(Unauthorized) else Ok(s.(authority := newAuthority))
    case OutsideTransfer(signer, from, to, amount) => StepOutsideTransfer(env, s, signer, from, to, amount)
    case OtherPoolSpends(nullifier) => Ok(s.(nullifiers := s.nullifiers + {nullifier}))
  }

  /** A failing instruction reverts as a whole. */
  ghost function Apply<F>(env: Env<F>, s: State<F>, ix: Instruction<F>): State<F>
  {
    var r := Step(env, s, ix);
    if r.Ok? then r.value else s
  }

  ghost function Run<F>(env: Env<F>, s: State<F>, ixs: seq<Instruction<F>>): State<F>
  {
    if ixs == [] then s
    else Apply(env, Run(env, s, ixs[..|ixs| - 1]), ixs[|ixs| - 1])
  }
}
