/** What each instruction does to each account, and when it is refused. */
module Instructions {
  import opened Arithmetic
  import opened IncrementalTree
  import opened Ledger
  import opened Pool
  import opened Words

  // ------------------------------------------------------------------ payouts

  /** The relayer's cut of an amount: ten thousandths of it, rounded down. */
  ghost predicate IsCut(amount: u64, feeBps: u16, cut: int)
  {
    0 <= cut <= amount && cut * 10000 <= amount * feeBps < (cut + 1) * 10000
  }

  lemma CutIsUnique(amount: u64, feeBps: u16, x: int, y: int)
    requires IsCut(amount, feeBps, x) && IsCut(amount, feeBps, y)
    ensures x == y
  {
  }

  lemma SplitIsCut(amount: u64, feeBps: u16)
    requires feeBps <= 10000
    ensures var r := SplitPayout(amount, feeBps);
      r.Ok? && r.value.0 == amount - r.value.1 && IsCut(amount, feeBps, r.value.1)
  {
    SplitPayoutIsExact(amount, feeBps);
  }

  /** How much more (or less) an account holds after one account paid two. */
  ghost function Change(k: Pubkey, payer: Pubkey, amount: int, recipient: Pubkey, relayer: Pubkey, cut: int): int
  {
    (if k == recipient then amount - cut else 0) + (if k == relayer then cut else 0)
    - (if k == payer then amount else 0)
  }

  /**
   * A native withdrawal takes the amount from the vault and gives the recipient all of it but the cut, which goes to
   * the relayer. Whichever accounts coincide, every account changes by exactly that.
   */
  lemma NativeWithdrawalPays<F>(env: Env<F>, s: State<F>, w: Withdrawal<F>) returns (cut: int)
    requires Step(env, s, WithdrawSol(w)).Ok? && s.relayerFeeBps <= 10000
    ensures IsCut(w.amount, s.relayerFeeBps, cut)
    ensures var s' := Step(env, s, WithdrawSol(w)).value;
      && (forall k :: Amount(s'.balances, k) ==
            Amount(s.balances, k) + Change(k, env.vault, w.amount, w.recipient, w.relayer, cut))
      && s'.receipts == s.receipts + [Receipt(w.nullifier, w.amount - cut, cut)]
      && s'.nullifiers == s.nullifiers + {w.nullifier} && s'.leaves == s.leaves
  {
    SplitIsCut(w.amount, s.relayerFeeBps);
    cut := SplitPayout(w.amount, s.relayerFeeBps).value.1;
  }

  /** The same for a token withdrawal and the token accounts it names, each of the party it belongs to. */
  lemma TokenWithdrawalPays<F>(env: Env<F>, s: State<F>, w: Withdrawal<F>,
                               from: Pubkey, recipientAccount: Pubkey, relayerAccount: Pubkey)
    returns (cut: int)
    requires Step(env, s, WithdrawSpl(w, from, recipientAccount, relayerAccount)).Ok? && s.relayerFeeBps <= 10000
    ensures IsCut(w.amount, s.relayerFeeBps, cut)
    ensures env.owner(from) == env.vault
    ensures env.owner(recipientAccount) == w.recipient && env.owner(relayerAccount) == w.relayer
    ensures var s' := Step(env, s, WithdrawSpl(w, from, recipientAccount, relayerAccount)).value;
      && (forall k :: Amount(s'.balances, k) ==
            Amount(s.balances, k) + Change(k, from, w.amount, recipientAccount, relayerAccount, cut))
      && s'.receipts == s.receipts + [Receipt(w.nullifier, w.amount - cut, cut)]
      && s'.nullifiers == s.nullifiers + {w.nullifier} && s'.leaves == s.leaves
  {
    SplitIsCut(w.amount, s.relayerFeeBps);
    cut := SplitPayout(w.amount, s.relayerFeeBps).value.1;
  }

  // ----------------------------------------------------------------- deposits

  /** A native deposit goes through exactly if the pool is open and native and both tree and balances allow it. */
  lemma NativeDepositIff<F>(env: Env<F>, s: State<F>, depositor: Pubkey, leaf: F)
    ensures Step(env, s, DepositSol(depositor, leaf)).Ok? <==>
      && depositor != env.vault && !s.paused && s.tokenMint == seq(32, _ => 0)
      && |s.leaves| < Pow2(env.depth) && env.hashable(leaf)
      && s.denomination <= Amount(s.balances, depositor)
      && Amount(s.balances, env.vault) + s.denomination < 0x1_0000_0000_0000_0000
  {
    assert SYSTEM_PROGRAM == seq(32, _ => 0);
  }

  /** It moves one denomination from depositor to vault and appends the leaf. */
  lemma NativeDepositMoves<F>(env: Env<F>, s: State<F>, depositor: Pubkey, leaf: F)
    requires Step(env, s, DepositSol(depositor, leaf)).Ok?
    ensures var s' := Step(env, s, DepositSol(depositor, leaf)).value;
      && s' == s.(leaves := s.leaves + [leaf], balances := s'.balances)
      && forall k :: Amount(s'.balances, k) == Amount(s.balances, k)
           + (if k == env.vault then s.denomination else 0) - (if k == depositor then s.denomination else 0)
  {
  }

  /** A token deposit goes through exactly if also the accounts exist and belong to depositor and vault. */
  lemma TokenDepositIff<F>(env: Env<F>, s: State<F>, depositor: Pubkey, from: Pubkey, to: Pubkey, leaf: F)
    ensures Step(env, s, DepositSpl(depositor, from, to, leaf)).Ok? <==>
      && depositor != env.vault && !s.paused && s.tokenMint != seq(32, _ => 0)
      && from in s.balances && to in s.balances && env.owner(from) == depositor && env.owner(to) == env.vault
      && |s.leaves| < Pow2(env.depth) && env.hashable(leaf)
      && s.denomination <= s.balances[from] && s.balances[to] + s.denomination < 0x1_0000_0000_0000_0000
  {
    assert SYSTEM_PROGRAM == seq(32, _ => 0);
  }

  /** A token deposit takes from an account of the depositor and gives to one of the vault. */
  lemma TokenDepositMoves<F>(env: Env<F>, s: State<F>, depositor: Pubkey, from: Pubkey, to: Pubkey, leaf: F)
    requires Step(env, s, DepositSpl(depositor, from, to, leaf)).Ok?
    ensures env.owner(from) == depositor && env.owner(to) == env.vault && !s.paused
    ensures |s.leaves| < Pow2(env.depth) && env.hashable(leaf)
    ensures var s' := Step(env, s, DepositSpl(depositor, from, to, leaf)).value;
      && s' == s.(leaves := s.leaves + [leaf], balances := s'.balances)
      && forall k :: Amount(s'.balances, k) == Amount(s.balances, k)
           + (if k == to then s.denomination else 0) - (if k == from then s.denomination else 0)
  {
  }

  // ------------------------------------------------------------------- guards

  /** The vault signs nothing itself, and nobody moves another's account. */
  lemma VaultNeverSigns<F>(env: Env<F>, s: State<F>, ix: Instruction<F>)
    requires Step(env, s, ix).Ok?
    ensures match ix
      case DepositSol(depositor, _) => depositor != env.vault
      case DepositSpl(depositor, from, _, _) => depositor != env.vault && env.owner(from) == depositor
      case WithdrawSol(w) => w.relayer != env.vault
      case WithdrawSpl(w, _, _, _) => w.relayer != env.vault
      case OutsideTransfer(signer, from, _, _) => signer != env.vault && env.owner(from) == signer
      case _ => true
  {
  }

  ghost predicate TouchesFunds<F>(ix: Instruction<F>)
  {
    ix.DepositSol? || ix.DepositSpl? || ix.WithdrawSol? || ix.WithdrawSpl?
  }

  /** A pool takes native instructions or token instructions, never both. */
  lemma WrongKindIsRefused<F>(env: Env<F>, s: State<F>, ix: Instruction<F>)
    requires Step(env, s, ix).Ok?
    ensures ix.DepositSol? || ix.WithdrawSol? ==> s.tokenMint == seq(32, _ => 0)
    ensures ix.DepositSpl? || ix.WithdrawSpl? ==> s.tokenMint != seq(32, _ => 0)
  {
    assert SYSTEM_PROGRAM == seq(32, _ => 0);
  }

  /** Pausing takes the authority, and only the flag changes. */
  lemma AuthorityPauses<F>(env: Env<F>, s: State<F>, signer: Pubkey)
    ensures Step(env, s, Pause(signer)).Ok? <==> signer == s.authority
    ensures Step(env, s, Unpause(signer)).Ok? <==> signer == s.authority
    ensures signer == s.authority ==>
      && Step(env, s, Pause(signer)).value.paused && !Step(env, s, Unpause(signer)).value.paused
      && Step(env, s, Pause(signer)).value.(paused := s.paused) == s
      && Step(env, s, Unpause(signer)).value.(paused := s.paused) == s
  {
  }

  /** After a rotation the new authority decides, and the old one no longer does. */
  lemma RotationHandsOver<F>(env: Env<F>, s: State<F>, next: Pubkey, signer: Pubkey)
    ensures var r := Step(env, s, RotateAuthority(s.authority, next));
      && r.Ok? && (Step(env, r.value, Pause(signer)).Ok? <==> signer == next)
      && r.value.(authority := s.authority) == s
    ensures signer != s.authority ==> Step(env, s, RotateAuthority(signer, next)) == Err(Unauthorized)
  {
  }

  /** From a pause on, no deposit and no withdrawal goes through until it is lifted. */
  lemma {:induction false} PausedPoolIsStill<F>(env: Env<F>, s: State<F>, ixs: seq<Instruction<F>>,
                                                next: Instruction<F>)
    requires s.paused && forall k :: 0 <= k < |ixs| ==> !ixs[k].Unpause?
    ensures var s' := Run(env, s, ixs);
      && s'.paused && s'.leaves == s.leaves && s'.receipts == s.receipts
      && (TouchesFunds(next) ==> Step(env, s', next).Err?)
  {
    if ixs != [] {
      PausedPoolIsStill(env, s, ixs[..|ixs| - 1], ixs[|ixs| - 1]);
    }
  }

  // -------------------------------------------------------------- proof check

  /** A proof is accepted exactly if it is three parts of 64, 128 and 64 bytes that the pairing check accepts. */
  lemma ProofIsThreeParts<F>(env: Env<F>, proof: Bytes, inputs: seq<F>)
    ensures VerifyProof(env, proof, inputs) <==>
      exists a: Bytes, b: Bytes, c: Bytes ::
        |a| == 64 && |b| == 128 && |c| == 64 && proof == a + b + c && env.groth16(a, b, c, inputs)
  {
    if VerifyProof(env, proof, inputs) {
      var a, b, c := proof[0..64], proof[64..192], proof[192..256];
      assert proof == a + b + c && env.groth16(a, b, c, inputs);
    }
  }

  /** What a proof is about. */
  datatype Claim<F> = Claim(root: F, nullifier: F, recipient: Pubkey, amount: u64, relayer: Pubkey, feeBps: u16)

  /** Different keys and words are different field elements. */
  ghost predicate Faithful<F(!new)>(env: Env<F>)
  {
    && (forall a, b :: env.key(a) == env.key(b) ==> a == b)
    && (forall a, b :: env.word(a) == env.word(b) ==> a == b)
  }

  /** A proof of one claim is accepted for that root, nullifier, recipient, amount, relayer and fee, and no others. */
  lemma ProofBindsTheClaim<F(!new)>(env: Env<F>, s: State<F>, w: Withdrawal<F>, c: Claim<F>)
    requires Faithful(env) && CheckWithdrawal(env, s, w).Ok?
    requires forall p1, p2, p3, inputs :: env.groth16(p1, p2, p3, inputs) ==>
      inputs == [c.root, c.nullifier, env.key(c.recipient), env.word(c.amount), env.key(c.relayer), env.word(c.feeBps)]
    ensures c == Claim(w.root, w.nullifier, w.recipient, w.amount, w.relayer, s.relayerFeeBps)
  {
  }

  /** A withdrawal true to its proof passes exactly if its nullifier is fresh, its root known and its amount right. */
  lemma HonestClaimPassesIff<F(!new)>(env: Env<F>, s: State<F>, c: Claim<F>, p1: Bytes, p2: Bytes, p3: Bytes)
    requires |p1| == 64 && |p2| == 128 && |p3| == 64 && c.feeBps == s.relayerFeeBps
    requires env.groth16(p1, p2, p3,
      [c.root, c.nullifier, env.key(c.recipient), env.word(c.amount), env.key(c.relayer), env.word(c.feeBps)])
    ensures CheckWithdrawal(env, s, Withdrawal(c.relayer, p1 + p2 + p3, c.root, c.nullifier, c.recipient, c.amount)).Ok?
      <==> c.nullifier !in s.nullifiers && Known(env.H(), env.depth, s.leaves, c.root) && c.amount == s.denomination
  {
    var proof := p1 + p2 + p3;
    assert proof[0..64] == p1 && proof[64..192] == p2 && proof[192..256] == p3;
  }

  // ---------------------------------------------------------------- constants

  /** No pool is opened with a cut above a tenth; below it the pool starts open, empty and on the terms asked for. */
  lemma FeeCap<F>(authority: Pubkey, tokenMint: Pubkey, denomination: u64, feeBps: u16,
                  nullifiers: set<F>, balances: Balances)
    ensures Initialize(authority, tokenMint, denomination, feeBps, nullifiers, balances) ==
      if 10 * feeBps > 10000 then Err(FeeBpsTooHigh)
      else Ok(State(authority, tokenMint, denomination, feeBps, false, [], nullifiers, [], balances, 0))
  {
  }
}
