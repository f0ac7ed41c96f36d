/** withdrawal_service.py, relay: concurrent relays with rebroadcasts against the on-chain nullifier guard. */
module Relay {
  import opened Broadcast
  import opened Words

  /** What a relay is asked for, apart from the nullifier: proof, root, recipient, amount and token. */
  datatype Order = Order(proof: string, root: string, recipient: string, amount: nat, token: string)

  datatype Request = Request(nullifierHash: string, order: Order)

  /** A signed transaction; its signature identifies it. */
  datatype Tx<N> = Tx(nullifier: N, order: Order, blockhash: string)

  /** A persisted withdrawal row, keyed by the spelling of the nullifier in the request. */
  datatype Row<N> = Row(nullifierHash: string, order: Order, signature: Tx<N>)

  /** `decode` reads a spelling as 32 nullifier bytes; several spellings may mean the same bytes. */
  datatype Config<!N> = Config(decode: string -> Option<N>, maxAttempts: int, executor: bool, simulate: bool)
  {
    ghost predicate IsFor(tx: Tx<N>, req: Request)
    {
      decode(req.nullifierHash) == Some(tx.nullifier) && tx.order == req.order
    }
  }

  datatype Failure = SpentInDatabase | BadRequest | NoBlockhash | SimulationFailed | BroadcastFailed | NotConfirmed

  datatype Caller<N> =
    | Arrived(req: Request)
    | Cleared(req: Request)
    | Built(req: Request, nullifier: N)
    | Sending(req: Request, tx: Tx<N>, attempt: nat)
    | Confirming(req: Request, tx: Tx<N>)
    | Persisting(req: Request, tx: Tx<N>)
    | Answered(req: Request, tx: Tx<N>)
    | Failed(req: Request, why: Failure)

  /** What the outside answers at an await: each caller state reads the fields it asks for. */
  datatype Answer = Answer(
    blockhash: Option<string>,   // a fresh blockhash, or a failure to get one or to sign with it
    simulated: bool,
    reply: Option<Class>,        // None: the node accepted the transaction; Some: how its refusal was classified
    visible: bool,               // whether the polled node knows the transaction
    committed: bool,             // whether its commitment level is high enough
    timedOut: bool,
    stored: bool)                // whether the database could be reached for the insert

  /** `landed` maps each processed transaction to whether it paid; `payouts` is the chain's log of payments. */
  datatype System<N(==)> = System(
    nullifiers: set<N>,
    landed: map<Tx<N>, bool>,
    payouts: seq<Tx<N>>,
    rows: seq<Row<N>>,
    callers: seq<Caller<N>>)

  /** A transaction may reach the chain at any time, once, whatever its sender was told. */
  datatype Action<N> = Call(req: Request) | Land(tx: Tx<N>, otherwiseValid: bool) | Advance(who: nat, answer: Answer)

  function Empty<N(==)>(): System<N>
  {
    System({}, map[], [], [], [])
  }

  // -------------------------------------------------------------------- steps

  predicate HasRow<N(==)>(rows: seq<Row<N>>, spelling: string)
  {
    exists row :: row in rows && row.nullifierHash == spelling
  }

  /** The first signed payload, after a simulation if one is required. */
  function AfterBuild<N(==)>(cfg: Config<N>, req: Request, nullifier: N, a: Answer): Caller<N>
  {
    if a.blockhash.None? then Failed(req, NoBlockhash)
    else if cfg.executor && cfg.simulate && !a.simulated then Failed(req, SimulationFailed)
    else Sending(req, Tx(nullifier, req.order, a.blockhash.value), 0)
  }

  /** One broadcast: retryable refusals are retried with a rebuilt payload, on the executor path only. */
  function AfterSend<N(==)>(cfg: Config<N>, req: Request, tx: Tx<N>, attempt: nat, a: Answer): Caller<N>
  {
    match a.reply
    case None => if cfg.executor then Confirming(req, tx) else Persisting(req, tx)
    case Some(refusal) =>
      if !cfg.executor || refusal == Fatal || attempt + 1 >= Max(1, cfg.maxAttempts) then Failed(req, BroadcastFailed)
      else Sending(req, if a.blockhash.Some? then tx.(blockhash := a.blockhash.value) else tx, attempt + 1)
  }

  /** One poll: an on-chain error fails the relay, a sufficient level confirms it. */
  function AfterPoll<N(==)>(s: System<N>, req: Request, tx: Tx<N>, a: Answer): Caller<N>
  {
    if a.visible && tx in s.landed && !s.landed[tx] then Failed(req, NotConfirmed)
    else if a.visible && tx in s.landed && a.committed then Persisting(req, tx)
    else if a.timedOut then Failed(req, NotConfirmed)
    else Confirming(req, tx)
  }

  function AdvanceCaller<N(==)>(cfg: Config<N>, s: System<N>, c: Caller<N>, a: Answer): (seq<Row<N>>, Caller<N>)
  {
    match c
    case Arrived(req) =>
      (s.rows, if HasRow(s.rows, req.nullifierHash) then Failed(req, SpentInDatabase) else Cleared(req))
    case Cleared(req) =>
      (s.rows, match cfg.decode(req.nullifierHash)
               case None => Failed(req, BadRequest)
               case Some(nullifier) => Built(req, nullifier))
    case Built(req, nullifier) => (s.rows, AfterBuild(cfg, req, nullifier, a))
    case Sending(req, tx, attempt) => (s.rows, AfterSend(cfg, req, tx, attempt, a))
    case Confirming(req, tx) => (s.rows, AfterPoll(s, req, tx, a))
    case Persisting(req, tx) =>
      // the insert is best effort: a duplicate key or a lost database never fails the relay
      (if a.stored && !HasRow(s.rows, req.nullifierHash)
       then s.rows + [Row(req.nullifierHash, req.order, tx)] else s.rows,
       Answered(req, tx))
    case Answered(_, _) => (s.rows, c)
    case Failed(_, _) => (s.rows, c)
  }

  /** The chain processes a transaction once; it pays if the nullifier account does not exist yet. */
  function LandTx<N(==)>(s: System<N>, tx: Tx<N>, otherwiseValid: bool): System<N>
  {
    if tx in s.landed then s
    else if otherwiseValid && tx.nullifier !in s.nullifiers then
      s.(nullifiers := s.nullifiers + {tx.nullifier}, landed := s.landed[tx := true], payouts := s.payouts + [tx])
    else s.(landed := s.landed[tx := false])
  }

  function Step<N(==)>(cfg: Config<N>, s: System<N>, action: Action<N>): System<N>
  {
    match action
    case Call(req) => s.(callers := s.callers + [Arrived(req)])
    case Land(tx, otherwiseValid) => LandTx(s, tx, otherwiseValid)
    case Advance(who, a) =>
      if who >= |s.callers| then s
      else var (rows, c) := AdvanceCaller(cfg, s, s.callers[who], a);
           s.(rows := rows, callers := s.callers[who := c])
  }

  function Run<N(==)>(cfg: Config<N>, actions: seq<Action<N>>): System<N>
  {
    if actions == [] then Empty()
    else Step(cfg, Run(cfg, actions[..|actions| - 1]), actions[|actions| - 1])
  }

  // --------------------------------------------------------------- invariants

  ghost predicate Paid<N(!new)>(s: System<N>, tx: Tx<N>)
  {
    tx in s.landed && s.landed[tx]
  }

  /** The payment log: exactly the landed payouts, no nullifier twice. */
  ghost predicate ChainGood<N(!new)>(s: System<N>)
  {
    && (forall i :: 0 <= i < |s.payouts| ==> s.payouts[i].nullifier in s.nullifiers)
    && (forall i, j :: 0 <= i < j < |s.payouts| ==> s.payouts[i].nullifier != s.payouts[j].nullifier)
    && (forall tx :: Paid(s, tx) <==> tx in s.payouts)
  }

  /** Rows have distinct spellings; on the executor path each one names the payout of its nullifier. */
  ghost predicate RowsGood<N(!new)>(cfg: Config<N>, s: System<N>)
  {
    && (forall i, j :: 0 <= i < j < |s.rows| ==> s.rows[i].nullifierHash != s.rows[j].nullifierHash)
    && (forall i :: 0 <= i < |s.rows| ==> RowGood(cfg, s, s.rows[i]))
  }

  ghost predicate RowGood<N(!new)>(cfg: Config<N>, s: System<N>, row: Row<N>)
  {
    && cfg.IsFor(row.signature, Request(row.nullifierHash, row.order))
    && (cfg.executor ==> Paid(s, row.signature))
  }

  ghost predicate CallerGood<N(!new)>(cfg: Config<N>, s: System<N>, c: Caller<N>)
  {
    match c
    case Built(req, nullifier) => cfg.decode(req.nullifierHash) == Some(nullifier)
    case Sending(req, tx, attempt) => cfg.IsFor(tx, req) && attempt < Max(1, cfg.maxAttempts)
    case Confirming(req, tx) => cfg.IsFor(tx, req)
    case Persisting(req, tx) => cfg.IsFor(tx, req) && (cfg.executor ==> Paid(s, tx))
    case Answered(req, tx) => cfg.IsFor(tx, req) && (cfg.executor ==> Paid(s, tx))
    case _ => true
  }

  ghost predicate Good<N(!new)>(cfg: Config<N>, s: System<N>)
  {
    ChainGood(s) && RowsGood(cfg, s) && forall k :: 0 <= k < |s.callers| ==> CallerGood(cfg, s, s.callers[k])
  }

  lemma LandKeepsGood<N(!new)>(cfg: Config<N>, s: System<N>, tx: Tx<N>, otherwiseValid: bool)
    requires Good(cfg, s)
    ensures Good(cfg, LandTx(s, tx, otherwiseValid))
  {
  }

  /** What a caller knows about its transaction only grows, and it persists only what it saw paid. */
  lemma AdvancedCallerIsGood<N(!new)>(cfg: Config<N>, s: System<N>, c: Caller<N>, a: Answer)
    requires CallerGood(cfg, s, c)
    ensures CallerGood(cfg, s, AdvanceCaller(cfg, s, c, a).1)
  {
  }

  lemma AdvancedRowsAreGood<N(!new)>(cfg: Config<N>, s: System<N>, c: Caller<N>, a: Answer)
    requires RowsGood(cfg, s) && CallerGood(cfg, s, c)
    ensures RowsGood(cfg, s.(rows := AdvanceCaller(cfg, s, c, a).0))
  {
  }

  lemma AdvanceKeepsGood<N(!new)>(cfg: Config<N>, s: System<N>, who: nat, a: Answer)
    requires Good(cfg, s) && who < |s.callers|
    ensures Good(cfg, Step(cfg, s, Advance(who, a)))
  {
    var c := s.callers[who];
    var s' := Step(cfg, s, Advance(who, a));
    AdvancedCallerIsGood(cfg, s, c, a);
    AdvancedRowsAreGood(cfg, s, c, a);
    forall i | 0 <= i < |s'.rows| ensures RowGood(cfg, s', s'.rows[i]) {
      assert RowGood(cfg, s.(rows := s'.rows), s'.rows[i]);
    }
    forall k | 0 <= k < |s'.callers| ensures CallerGood(cfg, s', s'.callers[k]) {
      assert k != who ==> CallerGood(cfg, s, s.callers[k]);
    }
  }

  /** In every interleaving of relays, rebroadcasts and landings the invariant holds. */
  lemma {:induction false} EveryRunIsGood<N(!new)>(cfg: Config<N>, actions: seq<Action<N>>)
    ensures Good(cfg, Run(cfg, actions))
  {
    if actions != [] {
      var earlier := actions[..|actions| - 1];
      EveryRunIsGood(cfg, earlier);
      match actions[|actions| - 1]
      case Call(_) =>
      case Land(tx, otherwiseValid) => LandKeepsGood(cfg, Run(cfg, earlier), tx, otherwiseValid);
      case Advance(who, a) =>
        if who < |Run(cfg, earlier).callers| {
          AdvanceKeepsGood(cfg, Run(cfg, earlier), who, a);
        }
    }
  }

  /** The chain pays each nullifier at most once, and each spelling has at most one row. */
  lemma AtMostOnce<N(!new)>(cfg: Config<N>, actions: seq<Action<N>>)
    ensures var s := Run(cfg, actions);
      && (forall x, y :: Paid(s, x) && Paid(s, y) && x.nullifier == y.nullifier ==> x == y)
      && (forall x, y :: x in s.rows && y in s.rows && x.nullifierHash == y.nullifierHash ==> x == y)
  {
    EveryRunIsGood(cfg, actions);
  }

  /** On the executor path every row and every answer names the one payout of its nullifier, to the order asked for. */
  lemma RowsNameThePayout<N(!new)>(cfg: Config<N>, actions: seq<Action<N>>, row: Row<N>, c: Caller<N>)
    requires cfg.executor
    requires row in Run(cfg, actions).rows && c in Run(cfg, actions).callers && c.Answered?
    ensures var s := Run(cfg, actions);
      && Paid(s, row.signature) && row.signature.order == row.order
      && cfg.decode(row.nullifierHash) == Some(row.signature.nullifier)
      && Paid(s, c.tx) && cfg.IsFor(c.tx, c.req)
      && (cfg.decode(c.req.nullifierHash) == cfg.decode(row.nullifierHash) ==> c.tx == row.signature)
  {
    EveryRunIsGood(cfg, actions);
    AtMostOnce(cfg, actions);
    var s := Run(cfg, actions);
    assert RowGood(cfg, s, row) && CallerGood(cfg, s, c);
  }

  // ------------------------------------------------------------ the database guard

  /** A caller not yet looked up or refused, whose spelling has a row. */
  ghost predicate Blocked<N(!new)>(s: System<N>, who: nat, req: Request)
  {
    && who < |s.callers| && HasRow(s.rows, req.nullifierHash)
    && (s.callers[who] == Arrived(req) || s.callers[who] == Failed(req, SpentInDatabase))
  }

  lemma StaysBlocked<N(!new)>(cfg: Config<N>, s: System<N>, action: Action<N>, who: nat, req: Request)
    requires Blocked(s, who, req)
    ensures Blocked(Step(cfg, s, action), who, req)
  {
    var row :| row in s.rows && row.nullifierHash == req.nullifierHash;
    assert row in Step(cfg, s, action).rows;
  }

  /** A relay that arrives when its spelling has a row is never built, sent or answered, however the run goes on. */
  lemma {:induction false} StoredSpellingIsRefused<N(!new)>(cfg: Config<N>, actions: seq<Action<N>>,
                                                            later: seq<Action<N>>, who: nat)
    requires who < |Run(cfg, actions).callers| && Run(cfg, actions).callers[who].Arrived?
    requires HasRow(Run(cfg, actions).rows, Run(cfg, actions).callers[who].req.nullifierHash)
    ensures Blocked(Run(cfg, actions + later), who, Run(cfg, actions).callers[who].req)
  {
    if later == [] {
      assert actions + later == actions;
    } else {
      var n := |later| - 1;
      StoredSpellingIsRefused(cfg, actions, later[..n], who);
      StaysBlocked(cfg, Run(cfg, actions + later[..n]), later[n], who, Run(cfg, actions).callers[who].req);
      assert (actions + later)[..|actions + later| - 1] == actions + later[..n];
    }
  }

  /** The next await of an arrived relay refuses it exactly if its spelling has a row, and clears it otherwise. */
  lemma LookupDecides<N(!new)>(cfg: Config<N>, s: System<N>, who: nat, a: Answer)
    requires who < |s.callers| && s.callers[who].Arrived?
    ensures var req := s.callers[who].req;
      var s' := Step(cfg, s, Advance(who, a));
      var stored := exists k :: 0 <= k < |s.rows| && s.rows[k].nullifierHash == req.nullifierHash;
      && s'.rows == s.rows
      && s'.callers[who] == if stored then Failed(req, SpentInDatabase) else Cleared(req)
  {
    var req := s.callers[who].req;
    if k :| 0 <= k < |s.rows| && s.rows[k].nullifierHash == req.nullifierHash {
      assert s.rows[k] in s.rows;
    }
  }

  /** An answer given while the database can be reached leaves a row for its spelling, the first one's. */
  lemma AnswerLeavesRow<N(!new)>(cfg: Config<N>, s: System<N>, who: nat, a: Answer)
    requires who < |s.callers| && s.callers[who].Persisting?
    ensures var c := s.callers[who];
      var s' := Step(cfg, s, Advance(who, a));
      && s'.callers[who] == Answered(c.req, c.tx)
      && (a.stored ==> HasRow(s'.rows, c.req.nullifierHash))
      && (a.stored && !HasRow(s.rows, c.req.nullifierHash) ==>
            s'.rows == s.rows + [Row(c.req.nullifierHash, c.req.order, c.tx)])
      && (!a.stored || HasRow(s.rows, c.req.nullifierHash) ==> s'.rows == s.rows)
  {
    var s' := Step(cfg, s, Advance(who, a));
    if a.stored && !HasRow(s.rows, s.callers[who].req.nullifierHash) {
      assert s'.rows[|s.rows|] in s'.rows;
    }
  }

  // ------------------------------------------- the steps and the executor's loops

  /** What a rebuild gives after the `k`-th refusal. */
  function Rebuilds<N>(tx: Tx<N>, answers: seq<Answer>): nat -> Option<Tx<N>>
  {
    (k: nat) => if k < |answers| && answers[k].blockhash.Some?
                then Some(tx.(blockhash := answers[k].blockhash.value)) else None
  }

  /** The caller after these answers, one await each. */
  function After<N(==)>(cfg: Config<N>, s: System<N>, c: Caller<N>, answers: seq<Answer>): Caller<N>
  {
    if answers == [] then c
    else AdvanceCaller(cfg, s, After(cfg, s, c, answers[..|answers| - 1]), answers[|answers| - 1]).1
  }

  lemma {:induction false} RebuildsAgree<N(!new)>(tx: Tx<N>, answers: seq<Answer>, k: nat)
    requires 0 < |answers| && k <= |answers| - 1
    ensures PayloadAt(tx, Rebuilds(tx, answers), k) == PayloadAt(tx, Rebuilds(tx, answers[..|answers| - 1]), k)
  {
    if k > 0 {
      RebuildsAgree(tx, answers, k - 1);
    }
  }

  lemma {:induction false} OnlyBlockhashChanges<N(!new)>(tx: Tx<N>, answers: seq<Answer>, k: nat)
    ensures var payload := PayloadAt(tx, Rebuilds(tx, answers), k); payload == tx.(blockhash := payload.blockhash)
  {
    if k > 0 {
      OnlyBlockhashChanges(tx, answers, k - 1);
    }
  }

  /** While refusals are retryable and attempts remain, the relay sends what the broadcast loop sends. */
  lemma {:induction false} RetriesFollowLoop<N(!new)>(cfg: Config<N>, s: System<N>, req: Request, tx: Tx<N>,
                                                      answers: seq<Answer>)
    requires cfg.executor && |answers| < Max(1, cfg.maxAttempts)
    requires forall k :: 0 <= k < |answers| ==> answers[k].reply == Some(Retryable)
    ensures After(cfg, s, Sending(req, tx, 0), answers)
         == Sending(req, PayloadAt(tx, Rebuilds(tx, answers), |answers|), |answers|)
  {
    if answers != [] {
      var n := |answers| - 1;
      RetriesFollowLoop(cfg, s, req, tx, answers[..n]);
      RebuildsAgree(tx, answers, n);
      OnlyBlockhashChanges(tx, answers, n);
    }
  }

  /** The reply that ends the loop: acceptance goes on to confirmation; a fatal or the last allowed refusal fails. */
  lemma LastReplyDecides<N(!new)>(cfg: Config<N>, s: System<N>, req: Request, tx: Tx<N>, answers: seq<Answer>,
                                  a: Answer)
    requires cfg.executor && |answers| < Max(1, cfg.maxAttempts)
    requires forall k :: 0 <= k < |answers| ==> answers[k].reply == Some(Retryable)
    ensures var next := AdvanceCaller(cfg, s, After(cfg, s, Sending(req, tx, 0), answers), a).1;
      && (a.reply == None ==> next == Confirming(req, PayloadAt(tx, Rebuilds(tx, answers), |answers|)))
      && (a.reply == Some(Fatal) ==> next == Failed(req, BroadcastFailed))
      && (a.reply == Some(Retryable) ==> (next == Failed(req, BroadcastFailed) <==>
            |answers| + 1 == Max(1, cfg.maxAttempts)))
  {
    RetriesFollowLoop(cfg, s, req, tx, answers);
  }

  /** Without an executor there is one send and no poll. */
  lemma SingleSendWithoutExecutor<N(!new)>(cfg: Config<N>, s: System<N>, req: Request, tx: Tx<N>, k: nat, a: Answer)
    requires !cfg.executor
    ensures AdvanceCaller(cfg, s, Sending(req, tx, k), a).1 ==
      if a.reply == None then Persisting(req, tx) else Failed(req, BroadcastFailed)
  {
  }

  /** A transaction is processed once; it pays exactly if it is otherwise valid and its nullifier is not spent. */
  lemma LandingPaysIff<N(!new)>(cfg: Config<N>, s: System<N>, tx: Tx<N>, otherwiseValid: bool)
    ensures var s' := Step(cfg, s, Land(tx, otherwiseValid));
      if tx in s.landed then s' == s
      else
        && s'.landed == s.landed[tx := otherwiseValid && tx.nullifier !in s.nullifiers]
        && s'.payouts == s.payouts + (if s'.landed[tx] then [tx] else [])
        && s'.nullifiers == s.nullifiers + (if s'.landed[tx] then {tx.nullifier} else {})
        && s'.rows == s.rows && s'.callers == s.callers
  {
  }

  /** The status a poll shows of a transaction. */
  function StatusSeen<N(==)>(s: System<N>, tx: Tx<N>, a: Answer): Option<Status>
  {
    if a.visible && tx in s.landed
    then Some(Status(!s.landed[tx], Some(if a.committed then "finalized" else "processed"), None)) else None
  }

  /** A poll has the consequence that the confirmation loop draws from the status. */
  lemma PollFollowsLoop<N(!new)>(cfg: Config<N>, s: System<N>, req: Request, tx: Tx<N>, a: Answer)
    ensures AdvanceCaller(cfg, s, Caller.Confirming(req, tx), a).1 ==
      match Judge(StatusSeen(s, tx, a), "confirmed")
      case FailedOnChain => Failed(req, NotConfirmed)
      case Confirmed(_) => Persisting(req, tx)
      case KeepPolling => if a.timedOut then Failed(req, NotConfirmed) else Caller.Confirming(req, tx)
  {
  }

  // -------------------------------------------------------------- ordinary relays

  lemma RunSnoc<N(!new)>(cfg: Config<N>, actions: seq<Action<N>>, a: Action<N>)
    ensures Run(cfg, actions + [a]) == Step(cfg, Run(cfg, actions), a)
  {
    assert (actions + [a])[..|actions + [a]| - 1] == actions;
  }

  /** A node that accepts and confirms at once, and a database that can be reached. */
  function Smooth(blockhash: string): Answer
  {
    Answer(Some(blockhash), true, None, true, true, false, true)
  }

  /** Call, lookup, decoding and signing. */
  function ToSend<N>(req: Request, blockhash: string): seq<Action<N>>
  {
    var go := Action<N>.Advance(0, Smooth(blockhash));
    [Call(req)] + [go] + [go] + [go]
  }

  lemma UndisturbedToSend<N(!new)>(cfg: Config<N>, req: Request, blockhash: string)
    requires cfg.decode(req.nullifierHash).Some?
    ensures Run(cfg, ToSend(req, blockhash)) == Empty<N>().(
              callers := [Sending(req, Tx(cfg.decode(req.nullifierHash).value, req.order, blockhash), 0)])
  {
    var go := Action<N>.Advance(0, Smooth(blockhash));
    assert [] + [Call(req)] == [Action<N>.Call(req)];
    RunSnoc(cfg, [], Call(req));
    RunSnoc(cfg, [Call(req)], go);
    LookupDecides(cfg, Run(cfg, [Call(req)]), 0, Smooth(blockhash));
    RunSnoc(cfg, [Call(req)] + [go], go);
    RunSnoc(cfg, [Call(req)] + [go] + [go], go);
  }

  /** What is left after the signing: send, landing and, with an executor, a poll; then the insert. */
  function FromSend<N>(cfg: Config<N>, tx: Tx<N>, blockhash: string): seq<Action<N>>
  {
    var go := Action<N>.Advance(0, Smooth(blockhash));
    [go] + [Land(tx, true)] + [go] + (if cfg.executor then [go] else [])
  }

  /** The chain has paid this transaction and nothing else, and the only caller stands here. */
  function OnePaid<N(==)>(tx: Tx<N>, c: Caller<N>): System<N>
  {
    System({tx.nullifier}, map[tx := true], [tx], [], [c])
  }

  lemma UndisturbedFinish<N(!new)>(cfg: Config<N>, actions: seq<Action<N>>, req: Request, tx: Tx<N>, blockhash: string)
    requires Run(cfg, actions) == OnePaid(tx, Persisting(req, tx))
    ensures Run(cfg, actions + [Advance(0, Smooth(blockhash))])
         == OnePaid(tx, Answered(req, tx)).(rows := [Row(req.nullifierHash, req.order, tx)])
  {
    RunSnoc(cfg, actions, Advance(0, Smooth(blockhash)));
  }

  lemma UndisturbedPoll<N(!new)>(cfg: Config<N>, actions: seq<Action<N>>, req: Request, tx: Tx<N>, blockhash: string)
    requires Run(cfg, actions) == OnePaid(tx, Caller.Confirming(req, tx))
    ensures Run(cfg, actions + [Advance(0, Smooth(blockhash))]) == OnePaid(tx, Persisting(req, tx))
  {
    RunSnoc(cfg, actions, Advance(0, Smooth(blockhash)));
  }

  lemma UndisturbedLanding<N(!new)>(cfg: Config<N>, actions: seq<Action<N>>, req: Request, tx: Tx<N>, blockhash: string)
    requires Run(cfg, actions) == Empty<N>().(callers := [Sending(req, tx, 0)])
    ensures Run(cfg, actions + [Advance(0, Smooth(blockhash))] + [Land(tx, true)])
         == OnePaid(tx, if cfg.executor then Caller.Confirming(req, tx) else Persisting(req, tx))
  {
    RunSnoc(cfg, actions, Advance(0, Smooth(blockhash)));
    RunSnoc(cfg, actions + [Advance(0, Smooth(blockhash))], Land(tx, true));
  }

  lemma UndisturbedFromSend<N(!new)>(cfg: Config<N>, actions: seq<Action<N>>, req: Request, tx: Tx<N>,
                                     blockhash: string)
    requires Run(cfg, actions) == Empty<N>().(callers := [Sending(req, tx, 0)])
    ensures Run(cfg, actions + FromSend(cfg, tx, blockhash))
         == OnePaid(tx, Answered(req, tx)).(rows := [Row(req.nullifierHash, req.order, tx)])
  {
    var go := Action<N>.Advance(0, Smooth(blockhash));
    var landed := actions + [go] + [Land(tx, true)];
    UndisturbedLanding(cfg, actions, req, tx, blockhash);
    if cfg.executor {
      UndisturbedPoll(cfg, landed, req, tx, blockhash);
      UndisturbedFinish(cfg, landed + [go], req, tx, blockhash);
      assert actions + FromSend(cfg, tx, blockhash) == landed + [go] + [go];
    } else {
      UndisturbedFinish(cfg, landed, req, tx, blockhash);
      assert actions + FromSend(cfg, tx, blockhash) == landed + [go];
    }
  }

  /** Left alone, a relay pays its order to its nullifier once, answers with that payout and stores its row. */
  lemma UndisturbedRelay<N(!new)>(cfg: Config<N>, req: Request, nullifier: N, blockhash: string)
    requires cfg.decode(req.nullifierHash) == Some(nullifier)
    ensures var tx := Tx(nullifier, req.order, blockhash);
      var s := Run(cfg, ToSend(req, blockhash) + FromSend(cfg, tx, blockhash));
      && s.payouts == [tx] && s.nullifiers == {nullifier}
      && s.callers == [Answered(req, tx)]
      && s.rows == [Row(req.nullifierHash, req.order, tx)]
  {
    UndisturbedToSend(cfg, req, blockhash);
    UndisturbedFromSend(cfg, ToSend(req, blockhash), req, Tx(nullifier, req.order, blockhash), blockhash);
  }

  /** A spelling that cannot be read and a simulation that fails stop a relay before anything is sent. */
  lemma StoppedBeforeSending<N(!new)>(cfg: Config<N>, s: System<N>, who: nat, a: Answer)
    requires who < |s.callers|
    ensures var c := s.callers[who];
      var next := Step(cfg, s, Advance(who, a)).callers[who];
      && (c.Cleared? ==> (next == Failed(c.req, BadRequest) <==> cfg.decode(c.req.nullifierHash) == None)
                         && (next.Built? <==> cfg.decode(c.req.nullifierHash).Some?))
      && (c.Built? ==> (next == Failed(c.req, NoBlockhash) <==> a.blockhash == None)
                       && (next.Sending? <==> a.blockhash.Some? && (cfg.executor && cfg.simulate ==> a.simulated)))
  {
  }
}
