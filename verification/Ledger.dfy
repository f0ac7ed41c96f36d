/** Balances, checked moves between accounts, and the sums they keep. */
module Ledger {
  import opened Words

  /** Lamports of wallets, or units of token accounts of one mint. */
  type Balances = map<Pubkey, u64>

  function Amount(b: Balances, account: Pubkey): u64
  {
    if account in b then b[account] else 0
  }

  /** `checked_sub`: `short` is the error of the caller's choice. */
  function Debit(b: Balances, account: Pubkey, amount: u64, short: Error): Result<Balances, Error>
  {
    if Amount(b, account) < amount then Err(short) else Ok(b[account := Amount(b, account) - amount])
  }

  /** `checked_add` on a 64-bit balance. */
  function Credit(b: Balances, account: Pubkey, amount: u64): Result<Balances, Error>
  {
    if Amount(b, account) + amount >= U64_LIMIT then Err(InvalidProof)
    else Ok(b[account := Amount(b, account) + amount])
  }

  /** A system or token transfer. */
  function Transfer(b: Balances, from: Pubkey, to: Pubkey, amount: u64): Result<Balances, Error>
  {
    var debited :- Debit(b, from, amount, InsufficientFunds);
    Credit(debited, to, amount)
  }

  // --------------------------------------------------------------------- sums

  /** What the accounts selected by `keep` hold together. */
  ghost function Sum(b: Balances, keep: Pubkey -> bool): nat
    decreases |b|
  {
    if b == map[] then 0
    else
      var k :| k in b;
      (if keep(k) then b[k] else 0) + Sum(b - {k}, keep)
  }

  /** The sum does not depend on the order in which accounts are taken out. */
  lemma {:induction false} SumTakeOut(b: Balances, keep: Pubkey -> bool, k: Pubkey)
    requires k in b
    ensures Sum(b, keep) == (if keep(k) then b[k] else 0) + Sum(b - {k}, keep)
    decreases |b|
  {
    var first :| first in b && Sum(b, keep) == (if keep(first) then b[first] else 0) + Sum(b - {first}, keep);
    if first != k {
      SumTakeOut(b - {first}, keep, k);
      SumTakeOut(b - {k}, keep, first);
      assert b - {first} - {k} == b - {k} - {first};
    }
  }

  lemma SumPut(b: Balances, keep: Pubkey -> bool, k: Pubkey, v: u64)
    ensures Sum(b[k := v], keep) == Sum(b, keep) + (if keep(k) then v - Amount(b, k) else 0)
  {
    SumTakeOut(b[k := v], keep, k);
    assert b[k := v] - {k} == b - {k};
    if k in b {
      SumTakeOut(b, keep, k);
    } else {
      assert b - {k} == b;
    }
  }

  lemma DebitSum(b: Balances, account: Pubkey, amount: u64, short: Error, keep: Pubkey -> bool)
    requires Debit(b, account, amount, short).Ok?
    ensures Sum(Debit(b, account, amount, short).value, keep) == Sum(b, keep) - (if keep(account) then amount else 0)
  {
    SumPut(b, keep, account, Amount(b, account) - amount);
  }

  lemma CreditSum(b: Balances, account: Pubkey, amount: u64, keep: Pubkey -> bool)
    requires Credit(b, account, amount).Ok?
    ensures Sum(Credit(b, account, amount).value, keep) == Sum(b, keep) + (if keep(account) then amount else 0)
  {
    SumPut(b, keep, account, Amount(b, account) + amount);
  }

  /** A transfer moves `amount` out of and into whatever the two accounts belong to. */
  lemma TransferSum(b: Balances, from: Pubkey, to: Pubkey, amount: u64, keep: Pubkey -> bool)
    requires Transfer(b, from, to, amount).Ok?
    ensures Sum(Transfer(b, from, to, amount).value, keep)
         == Sum(b, keep) - (if keep(from) then amount else 0) + (if keep(to) then amount else 0)
  {
    DebitSum(b, from, amount, InsufficientFunds, keep);
    CreditSum(Debit(b, from, amount, InsufficientFunds).value, to, amount, keep);
  }

  lemma SumAtLeast(b: Balances, keep: Pubkey -> bool, k: Pubkey)
    requires keep(k)
    ensures Amount(b, k) <= Sum(b, keep)
    ensures (forall j :: keep(j) ==> j == k) ==> Sum(b, keep) == Amount(b, k)
  {
    if k in b {
      SumTakeOut(b, keep, k);
      SumOfNone(b - {k}, keep);
    } else {
      SumOfNone(b, keep);
    }
  }

  lemma {:induction false} SumOfNone(b: Balances, keep: Pubkey -> bool)
    ensures (forall j :: j in b ==> !keep(j)) ==> Sum(b, keep) == 0
    decreases |b|
  {
    if b != map[] {
      var first :| first in b && Sum(b, keep) == (if keep(first) then b[first] else 0) + Sum(b - {first}, keep);
      SumOfNone(b - {first}, keep);
    }
  }
}
