/** tx_executor.py: error classes, the broadcast loop with retry, and the confirmation loop. */
module Broadcast {
  import opened Arithmetic
  import opened Words

  // ------------------------------------------------------------ error classes

  datatype Class = Retryable | Fatal

  const FATAL_MARKERS: seq<string> :=
    ["insufficientfundsforrent", "insufficient funds", "invalidaccountdata", "accountnotfound",
     "instructionerror", "transaction simulation failed"]

  const RETRYABLE_MARKERS: seq<string> :=
    ["blockhashnotfound", "block not available", "node is behind", "429", "rate limit", "too many requests",
     "502", "503", "504", "bad gateway", "service unavailable", "gateway timeout"]

  predicate Contains(text: string, marker: string)
  {
    marker <= text || (text != "" && Contains(text[1..], marker))
  }

  predicate AnyIn(markers: seq<string>, text: string)
  {
    exists m :: m in markers && Contains(text, m)
  }

  /** A fatal marker wins over a retryable one, and an unknown error is fatal. */
  function Classify(text: string): Class
  {
    var lowered := Lower(text);
    if AnyIn(FATAL_MARKERS, lowered) then Fatal
    else if AnyIn(RETRYABLE_MARKERS, lowered) then Retryable
    else Fatal
  }

  // ---------------------------------------------------------------- broadcast

  datatype Reply = Accepted(signature: string) | Refused(error: string)

  function Max(a: int, b: int): int
  {
    if a > b then a else b
  }

  datatype BroadcastError = FatalReply(error: string) | Exhausted(attempts: nat)

  /** The payload of an attempt: the original, or the last one that could be rebuilt. */
  function PayloadAt<P>(original: P, rebuild: nat -> Option<P>, attempt: nat): P
  {
    if attempt == 0 then original
    else match rebuild(attempt - 1)
         case Some(p) => p
         case None => PayloadAt(original, rebuild, attempt - 1)
  }

  function Sum(xs: seq<nat>): nat
  {
    if xs == [] then 0 else Sum(xs[..|xs| - 1]) + xs[|xs| - 1]
  }

  predicate IsRetry(reply: Reply)
  {
    reply.Refused? && Classify(reply.error) == Retryable
  }

  /** Pauses that double from `base` on. */
  predicate Doubling(slept: seq<nat>, base: nat)
  {
    forall k :: 0 <= k < |slept| ==> slept[k] == base * Pow2(k)
  }

  /** They add up to one less than the next doubling, times the base. */
  lemma {:induction false} DoublingSum(slept: seq<nat>, base: nat)
    requires Doubling(slept, base)
    ensures Sum(slept) == base * (Pow2(|slept|) - 1)
  {
    if slept != [] {
      var n := |slept| - 1;
      DoublingSum(slept[..n], base);
      assert base * (Pow2(n) - 1) + base * Pow2(n) == base * (2 * Pow2(n) - 1);
    }
  }

  /** `send` and `rebuild` are the node's behaviour at each attempt; `sent` and `slept` record what the loop did. */
  method BroadcastWithRetry<P>(send: (nat, P) -> Reply, rebuild: nat -> Option<P>, original: P, maxAttempts: int,
                               backoffMs: int)
    returns (r: Result<string, BroadcastError>, sent: seq<P>, slept: seq<nat>)
    ensures 1 <= |sent| <= Max(1, maxAttempts) && |slept| == |sent| - 1
    ensures forall k :: 0 <= k < |sent| ==> sent[k] == PayloadAt(original, rebuild, k)
    ensures forall k :: 0 <= k < |sent| - 1 ==> IsRetry(send(k, sent[k]))
    ensures var last := send(|sent| - 1, sent[|sent| - 1]);
      match r
      case Ok(signature) => last == Accepted(signature)
      case Err(FatalReply(error)) => last == Refused(error) && Classify(error) == Fatal
      case Err(Exhausted(n)) => IsRetry(last) && n == |sent| == Max(1, maxAttempts)
    ensures Doubling(slept, Max(0, backoffMs))
    ensures Sum(slept) == Max(0, backoffMs) * (Pow2(|sent| - 1) - 1)
  {
    r, sent, slept := SendUntilDecided(send, rebuild, original, Max(1, maxAttempts), Max(0, backoffMs));
    DoublingSum(slept, Max(0, backoffMs));
  }

  /** The loop itself, its settings already clamped. */
  method SendUntilDecided<P>(send: (nat, P) -> Reply, rebuild: nat -> Option<P>, original: P, limit: nat, base: nat)
    returns (r: Result<string, BroadcastError>, sent: seq<P>, slept: seq<nat>)
    requires limit > 0
    ensures 1 <= |sent| <= limit && |slept| == |sent| - 1
    ensures forall k :: 0 <= k < |sent| ==> sent[k] == PayloadAt(original, rebuild, k)
    ensures forall k :: 0 <= k < |sent| - 1 ==> IsRetry(send(k, sent[k]))
    ensures var last := send(|sent| - 1, sent[|sent| - 1]);
      match r
      case Ok(signature) => last == Accepted(signature)
      case Err(FatalReply(error)) => last == Refused(error) && Classify(error) == Fatal
      case Err(Exhausted(n)) => IsRetry(last) && n == |sent| == limit
    ensures Doubling(slept, base)
  {
    var payload := original;
    sent, slept := [], [];
    for attempt := 0 to limit
      invariant |sent| == |slept| == attempt < limit
      invariant payload == PayloadAt(original, rebuild, attempt)
      invariant forall k :: 0 <= k < attempt ==> sent[k] == PayloadAt(original, rebuild, k) && IsRetry(send(k, sent[k]))
      invariant Doubling(slept, base)
    {
      sent := sent + [payload];
      var reply := send(attempt, payload);
      if reply.Accepted? {
        return Ok(reply.signature), sent, slept;
      }
      if Classify(reply.error) == Fatal {
        return Err(FatalReply(reply.error)), sent, slept;
      }
      if attempt + 1 >= limit {
        return Err(Exhausted(limit)), sent, slept;
      }
      var rebuilt := rebuild(attempt);
      if rebuilt.Some? {
        payload := rebuilt.value;
      }
      slept := slept + [base * Pow2(attempt)];
    }
  }

  // ------------------------------------------------------------- confirmation

  /** A signature status: whether it carries an error, and its level if one is given. */
  datatype Status = Status(failed: bool, level: Option<string>, slot: Option<int>)

  datatype Verdict = KeepPolling | Confirmed(slot: Option<int>) | FailedOnChain

  datatype ConfirmError = OnChainError | Timeout

  function Rank(level: string, unknown: int): int
  {
    if level == "processed" then 0
    else if level == "confirmed" then 1
    else if level == "finalized" then 2
    else unknown
  }

  predicate MeetsCommitment(status: Status, target: string)
  {
    status.level.Some? && Rank(status.level.value, -1) >= Rank(target, 1)
  }

  function Judge(status: Option<Status>, target: string): Verdict
  {
    if status.None? then KeepPolling
    else if status.value.failed then FailedOnChain
    else if MeetsCommitment(status.value, target) then Confirmed(status.value.slot)
    else KeepPolling
  }

  /** Poll `k` sees `poll(k)`, after which the clock reads `clock(k)`; it passes the deadline by poll `horizon`. */
  method AwaitConfirmation(poll: nat -> Option<Status>, clock: nat -> int, target: string, start: int,
                           timeoutSeconds: int,
                           ghost horizon: nat)
    returns (r: Result<Option<int>, ConfirmError>, polls: nat)
    requires clock(horizon) >= start + Max(1, timeoutSeconds)
    ensures 1 <= polls <= horizon + 1
    ensures forall k :: 0 <= k < polls - 1 ==>
      Judge(poll(k), target) == KeepPolling && clock(k) < start + Max(1, timeoutSeconds)
    ensures match r
      case Ok(slot) => Judge(poll(polls - 1), target) == Confirmed(slot)
      case Err(OnChainError) => Judge(poll(polls - 1), target) == FailedOnChain
      case Err(Timeout) =>
        Judge(poll(polls - 1), target) == KeepPolling && clock(polls - 1) >= start + Max(1, timeoutSeconds)
  {
    var deadline := start + Max(1, timeoutSeconds);
    polls := 0;
    while true
      invariant polls <= horizon
      invariant forall k :: 0 <= k < polls ==> Judge(poll(k), target) == KeepPolling && clock(k) < deadline
      decreases horizon - polls
    {
      var status := poll(polls);
      var now := clock(polls);
      polls := polls + 1;
      if status.Some? {
        if status.value.failed {
          return Err(OnChainError), polls;
        }
        if MeetsCommitment(status.value, target) {
          return Ok(status.value.slot), polls;
        }
      }
      if now >= deadline {
        return Err(Timeout), polls;
      }
    }
  }

  // ------------------------------------------------------------------- the classes

  predicate StandsAt(text: string, i: nat, marker: string)
  {
    i + |marker| <= |text| && text[i..i + |marker|] == marker
  }

  ghost predicate Occurs(text: string, marker: string)
  {
    exists i: nat :: StandsAt(text, i, marker)
  }

  /** A marker is found exactly if it stands somewhere in the text. */
  lemma {:induction false} ContainsIff(text: string, marker: string)
    ensures Contains(text, marker) <==> Occurs(text, marker)
  {
    if marker <= text {
      assert StandsAt(text, 0, marker);
    } else if text == "" {
      assert !Contains(text, marker);
    } else {
      ContainsIff(text[1..], marker);
      forall i: nat ensures StandsAt(text[1..], i, marker) <==> StandsAt(text, i + 1, marker) {
        assert i + |marker| < |text| ==> text[1..][i..i + |marker|] == text[i + 1..i + 1 + |marker|];
      }
      if i: nat :| StandsAt(text, i, marker) {
        assert i > 0 by {
          assert StandsAt(text, 0, marker) ==> marker <= text;
        }
        assert StandsAt(text[1..], i - 1, marker);
      }
      if i: nat :| StandsAt(text[1..], i, marker) {
        assert StandsAt(text, i + 1, marker);
      }
    }
  }

  /** An error is retryable exactly if a retryable marker occurs in its lower-cased text and no fatal one does. */
  lemma RetryableIff(text: string)
    ensures Classify(text) == Retryable <==>
      && (exists m :: m in RETRYABLE_MARKERS && Occurs(Lower(text), m))
      && (forall m :: m in FATAL_MARKERS ==> !Occurs(Lower(text), m))
  {
    forall m ensures Contains(Lower(text), m) <==> Occurs(Lower(text), m) {
      ContainsIff(Lower(text), m);
    }
  }

  lemma LowerIs(word: string, marker: string)
    requires |word| == |marker| && forall i :: 0 <= i < |word| ==> LowerChar(word[i]) == marker[i]
    ensures Lower(word) == marker
  {
  }

  lemma LowerInside(before: string, word: string, after: string)
    ensures Contains(Lower(before + word + after), Lower(word))
  {
    var text, lowered := Lower(before + word + after), Lower(word);
    forall i | 0 <= i < |word| ensures text[|before| + i] == lowered[i] {
      assert (before + word + after)[|before| + i] == word[i];
    }
    assert StandsAt(text, |before|, lowered);
    ContainsIff(text, lowered);
  }

  /** The errors documented as fatal, and those documented as retryable. */
  const FATAL_ERRORS: seq<string> :=
    ["InsufficientFundsForRent", "insufficient funds", "InvalidAccountData", "AccountNotFound",
     "InstructionError", "Transaction simulation failed"]

  const RETRYABLE_ERRORS: seq<string> :=
    ["BlockhashNotFound", "Block not available", "Node is behind", "429", "rate limit", "too many requests",
     "502", "503", "504", "bad gateway", "service unavailable", "gateway timeout"]

  lemma FatalErrorIsMarker(k: nat)
    requires k < |FATAL_ERRORS|
    ensures Lower(FATAL_ERRORS[k]) in FATAL_MARKERS
  {
    if k == 0 {
      LowerIs(FATAL_ERRORS[0], FATAL_MARKERS[0]);
    } else if k == 1 {
      LowerIs(FATAL_ERRORS[1], FATAL_MARKERS[1]);
    } else if k == 2 {
      LowerIs(FATAL_ERRORS[2], FATAL_MARKERS[2]);
    } else if k == 3 {
      LowerIs(FATAL_ERRORS[3], FATAL_MARKERS[3]);
    } else if k == 4 {
      LowerIs(FATAL_ERRORS[4], FATAL_MARKERS[4]);
    } else if k == 5 {
      LowerIs(FATAL_ERRORS[5], FATAL_MARKERS[5]);
    }
  }

  lemma RetryableErrorIsMarker(k: nat)
    requires k < |RETRYABLE_ERRORS|
    ensures Lower(RETRYABLE_ERRORS[k]) in RETRYABLE_MARKERS
  {
    if k == 0 {
      LowerIs(RETRYABLE_ERRORS[0], RETRYABLE_MARKERS[0]);
    } else if k == 1 {
      LowerIs(RETRYABLE_ERRORS[1], RETRYABLE_MARKERS[1]);
    } else if k == 2 {
      LowerIs(RETRYABLE_ERRORS[2], RETRYABLE_MARKERS[2]);
    } else if k == 3 {
      LowerIs(RETRYABLE_ERRORS[3], RETRYABLE_MARKERS[3]);
    } else if k == 4 {
      LowerIs(RETRYABLE_ERRORS[4], RETRYABLE_MARKERS[4]);
    } else if k == 5 {
      LowerIs(RETRYABLE_ERRORS[5], RETRYABLE_MARKERS[5]);
    } else if k == 6 {
      LowerIs(RETRYABLE_ERRORS[6], RETRYABLE_MARKERS[6]);
    } else if k == 7 {
      LowerIs(RETRYABLE_ERRORS[7], RETRYABLE_MARKERS[7]);
    } else if k == 8 {
      LowerIs(RETRYABLE_ERRORS[8], RETRYABLE_MARKERS[8]);
    } else if k == 9 {
      LowerIs(RETRYABLE_ERRORS[9], RETRYABLE_MARKERS[9]);
    } else if k == 10 {
      LowerIs(RETRYABLE_ERRORS[10], RETRYABLE_MARKERS[10]);
    } else if k == 11 {
      LowerIs(RETRYABLE_ERRORS[11], RETRYABLE_MARKERS[11]);
    }
  }

  /** The errors documented as fatal are, wherever they stand and whatever else the text says. */
  lemma DocumentedFatal(before: string, k: nat, after: string)
    requires k < |FATAL_ERRORS|
    ensures Classify(before + FATAL_ERRORS[k] + after) == Fatal
  {
    LowerInside(before, FATAL_ERRORS[k], after);
    FatalErrorIsMarker(k);
  }

  /** Those documented as retryable are, unless a fatal one stands in the same text. */
  lemma DocumentedRetryable(before: string, k: nat, after: string)
    requires k < |RETRYABLE_ERRORS|
    ensures var text := before + RETRYABLE_ERRORS[k] + after;
      Classify(text) == Retryable <==> forall m :: m in FATAL_MARKERS ==> !Occurs(Lower(text), m)
  {
    var text := before + RETRYABLE_ERRORS[k] + after;
    LowerInside(before, RETRYABLE_ERRORS[k], after);
    RetryableErrorIsMarker(k);
    ContainsIff(Lower(text), Lower(RETRYABLE_ERRORS[k]));
    RetryableIff(text);
  }

  /** Without a rebuild that worked, an attempt sends the original. */
  lemma {:induction false} PayloadIsOriginal<P>(original: P, rebuild: nat -> Option<P>, attempt: nat)
    requires forall k: nat :: k < attempt ==> rebuild(k) == None
    ensures PayloadAt(original, rebuild, attempt) == original
  {
    if attempt > 0 {
      PayloadIsOriginal(original, rebuild, attempt - 1);
    }
  }

  /** Otherwise it sends what the last rebuild before it gave that worked. */
  lemma {:induction false} PayloadIsLastRebuilt<P>(original: P, rebuild: nat -> Option<P>, attempt: nat, j: nat)
    requires j < attempt && rebuild(j).Some? && forall k: nat :: j < k < attempt ==> rebuild(k) == None
    ensures PayloadAt(original, rebuild, attempt) == rebuild(j).value
  {
    if j < attempt - 1 {
      PayloadIsLastRebuilt(original, rebuild, attempt - 1, j);
    }
  }

  /** The three levels in their order; an unknown target counts as confirmed, an unknown level meets nothing. */
  lemma CommitmentOrder(failed: bool, level: string, slot: Option<int>, target: string)
    ensures MeetsCommitment(Status(failed, Some(level), slot), target) <==>
      || level == "finalized"
      || (level == "confirmed" && target != "finalized")
      || (level == "processed" && target == "processed")
    ensures !MeetsCommitment(Status(failed, None, slot), target)
  {
  }

  /** An error on chain decides before any level does; a status that is missing or too low keeps the polling on. */
  lemma ErrorDecidesFirst(level: Option<string>, slot: Option<int>, target: string)
    ensures Judge(Some(Status(true, level, slot)), target) == FailedOnChain
    ensures Judge(Some(Status(false, level, slot)), target) == Confirmed(slot)
      <==> MeetsCommitment(Status(false, level, slot), target)
    ensures Judge(None, target) == KeepPolling
    ensures !MeetsCommitment(Status(false, level, slot), target) ==>
      Judge(Some(Status(false, level, slot)), target) == KeepPolling
  {
  }
}
