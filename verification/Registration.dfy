/** deposit_service.py, register: concurrent callers over one collection with two unique indexes. */
module Registration {
  import opened Words

  datatype Request = Request(commitment: string, signature: string, amount: nat, token: string, creator: Option<string>)

  datatype Row = Row(
    commitment: string,
    merkleIndex: nat,
    amount: nat,
    token: string,
    signature: string,
    creator: Option<string>)

  /** What the RPC node says about a transaction: unknown, landed with an error, landed without one. */
  datatype TxAnswer = NotVisible | FailedOnChain | Landed

  datatype Outcome = Registered(row: Row) | Conflict | TxNotFound | TxFailed | DuplicateKey

  /** Where a caller stands between two awaits. */
  datatype Caller =
    | Arrived(req: Request)
    | NoRowFound(req: Request)
    | Confirmed(req: Request)
    | Counted(req: Request, index: nat)
    | LostRace(req: Request)
    | Finished(req: Request, outcome: Outcome)

  /** `seen` collects the signatures the node has reported as landed without error. */
  datatype System = System(rows: seq<Row>, callers: seq<Caller>, seen: set<string>)

  datatype Action = Call(req: Request) | Advance(who: nat, answer: TxAnswer)

  const EMPTY: System := System([], [], {})

  // --------------------------------------------------------------- collection

  function FindOne(rows: seq<Row>, commitment: string): (r: Option<Row>)
    ensures r.Some? ==> r.value in rows && r.value.commitment == commitment
    ensures r.None? ==> forall row :: row in rows ==> row.commitment != commitment
  {
    if rows == [] then None
    else if rows[0].commitment == commitment then Some(rows[0])
    else FindOne(rows[1..], commitment)
  }

  /** Both unique indexes are checked on insertion. */
  predicate HasDuplicate(rows: seq<Row>, row: Row)
  {
    exists r :: r in rows && (r.commitment == row.commitment || r.merkleIndex == row.merkleIndex)
  }

  // -------------------------------------------------------------------- steps

  /** A cached row answers its own signature and refuses any other. */
  function AnswerFrom(row: Row, req: Request): Outcome
  {
    if row.signature == req.signature then Registered(row) else Conflict
  }

  function NewRow(req: Request, index: nat): Row
  {
    Row(req.commitment, index, req.amount, req.token, req.signature, req.creator)
  }

  /** One caller's next await, with the node's answer if it asks the node. */
  function AdvanceCaller(rows: seq<Row>, c: Caller, answer: TxAnswer): (seq<Row>, Caller)
  {
    match c
    case Arrived(req) =>
      var found := FindOne(rows, req.commitment);
      (rows, if found.Some? then Finished(req, AnswerFrom(found.value, req)) else NoRowFound(req))
    case NoRowFound(req) =>
      (rows, match answer
             case NotVisible => Finished(req, TxNotFound)
             case FailedOnChain => Finished(req, TxFailed)
             case Landed => Confirmed(req))
    case Confirmed(req) => (rows, Counted(req, |rows|))
    case Counted(req, index) =>
      var row := NewRow(req, index);
      if HasDuplicate(rows, row) then (rows, LostRace(req)) else (rows + [row], Finished(req, Registered(row)))
    case LostRace(req) =>
      var found := FindOne(rows, req.commitment);
      (rows, Finished(req, if found.Some? then AnswerFrom(found.value, req) else DuplicateKey))
    case Finished(_, _) => (rows, c)
  }

  function Step(s: System, a: Action): System
  {
    match a
    case Call(req) => s.(callers := s.callers + [Arrived(req)])
    case Advance(who, answer) =>
      if who >= |s.callers| then s
      else
        var c := s.callers[who];
        var (rows, c') := AdvanceCaller(s.rows, c, answer);
        System(rows, s.callers[who := c'],
               s.seen + (if c.NoRowFound? && answer == Landed then {c.req.signature} else {}))
  }

  function Run(actions: seq<Action>): System
  {
    if actions == [] then EMPTY else Step(Run(actions[..|actions| - 1]), actions[|actions| - 1])
  }

  // --------------------------------------------------------------- invariants

  /** Rows are stored gap-free in insertion order, one per commitment, each with a transaction seen to have landed. */
  ghost predicate RowsGood(rows: seq<Row>, seen: set<string>)
  {
    && (forall i :: 0 <= i < |rows| ==> rows[i].merkleIndex == i)
    && (forall i, j :: 0 <= i < j < |rows| ==> rows[i].commitment != rows[j].commitment)
    && (forall i :: 0 <= i < |rows| ==> rows[i].signature in seen)
  }

  ghost predicate CallerGood(s: System, c: Caller)
  {
    match c
    case Confirmed(req) => req.signature in s.seen
    case Counted(req, index) => req.signature in s.seen && index <= |s.rows|
    case Finished(req, Registered(row)) =>
      row in s.rows && row.commitment == req.commitment && row.signature == req.signature
    case Finished(req, Conflict) =>
      exists row :: row in s.rows && row.commitment == req.commitment && row.signature != req.signature
    case _ => true
  }

  /** Every row is the answer of the caller that inserted it, and carries that caller's data. */
  ghost predicate Owned(callers: seq<Caller>, row: Row)
  {
    exists c :: c in callers && c.Finished? && c.outcome == Registered(row) && row == NewRow(c.req, row.merkleIndex)
  }

  ghost predicate Good(s: System)
  {
    && RowsGood(s.rows, s.seen)
    && (forall k :: 0 <= k < |s.callers| ==> CallerGood(s, s.callers[k]))
    && (forall row :: row in s.rows ==> Owned(s.callers, row))
  }

  /** A counted index is never past the end, and a stale one hits the unique index. */
  lemma InsertedAtTheEnd(rows: seq<Row>, seen: set<string>, req: Request, index: nat)
    requires RowsGood(rows, seen) && req.signature in seen && index <= |rows|
    requires !HasDuplicate(rows, NewRow(req, index))
    ensures index == |rows| && RowsGood(rows + [NewRow(req, index)], seen)
  {
    var holder := if index < |rows| then rows[index] else NewRow(req, index);
    assert index < |rows| ==> holder.merkleIndex == index && holder in rows;
    forall i | 0 <= i < |rows| ensures rows[i].commitment != req.commitment {
      assert rows[i] in rows;
    }
  }

  /** A step only appends: either nothing, or the one row of a caller that thereby succeeds. */
  lemma OnlySuccessInserts(s: System, a: Action)
    ensures var s' := Step(s, a);
      s'.rows == s.rows ||
      (a.Advance? && a.who < |s.callers| && s.callers[a.who].Counted?
       && s'.rows == s.rows + [NewRow(s.callers[a.who].req, s.callers[a.who].index)]
       && s'.callers[a.who] == Finished(s.callers[a.who].req, Registered(s'.rows[|s.rows|])))
  {
  }

  lemma CallersStayGood(s: System, s': System, c: Caller)
    requires CallerGood(s, c) && s.rows <= s'.rows && s.seen <= s'.seen
    ensures CallerGood(s', c)
  {
  }

  /** Finished callers stay as they are, so owned rows stay owned. */
  lemma OwnersStay(s: System, a: Action, row: Row)
    requires Owned(s.callers, row)
    ensures Owned(Step(s, a).callers, row)
  {
    var c :| c in s.callers && c.Finished? && c.outcome == Registered(row) && row == NewRow(c.req, row.merkleIndex);
    var k :| 0 <= k < |s.callers| && s.callers[k] == c;
    assert Step(s, a).callers[k] == c;
  }

  lemma StepKeepsGood(s: System, a: Action)
    requires Good(s)
    ensures Good(Step(s, a)) && s.rows <= Step(s, a).rows
  {
    var s' := Step(s, a);
    if a.Advance? && a.who < |s.callers| {
      var c := s.callers[a.who];
      assert CallerGood(s, c);
      if c.Counted? && !HasDuplicate(s.rows, NewRow(c.req, c.index)) {
        InsertedAtTheEnd(s.rows, s.seen, c.req, c.index);
      }
    }
    forall k | 0 <= k < |s'.callers| ensures CallerGood(s', s'.callers[k]) {
      if k < |s.callers| && s'.callers[k] == s.callers[k] {
        CallersStayGood(s, s', s.callers[k]);
      }
    }
    forall row | row in s'.rows ensures Owned(s'.callers, row) {
      if row in s.rows {
        OwnersStay(s, a, row);
      } else {
        OnlySuccessInserts(s, a);
        assert s'.callers[a.who] in s'.callers;
      }
    }
  }

  /** In every interleaving of any number of callers the invariant holds. */
  lemma {:induction false} EveryRunIsGood(actions: seq<Action>)
    ensures Good(Run(actions))
  {
    if actions != [] {
      EveryRunIsGood(actions[..|actions| - 1]);
      StepKeepsGood(Run(actions[..|actions| - 1]), actions[|actions| - 1]);
    }
  }

  /** Rows never change or disappear. */
  lemma {:induction false} RowsArePermanent(actions: seq<Action>, later: seq<Action>)
    ensures Run(actions).rows <= Run(actions + later).rows
  {
    if later == [] {
      assert actions + later == actions;
    } else {
      var n := |later| - 1;
      assert (actions + later)[..|actions + later| - 1] == actions + later[..n];
      RowsArePermanent(actions, later[..n]);
      EveryRunIsGood(actions + later[..n]);
      StepKeepsGood(Run(actions + later[..n]), later[n]);
    }
  }

  /** The stored indices are exactly 0..n-1, each once. */
  lemma IndicesAreGapFree(actions: seq<Action>, k: nat)
    ensures var rows := Run(actions).rows;
      && (k < |rows| <==> exists row :: row in rows && row.merkleIndex == k)
      && (forall x, y :: x in rows && y in rows && x.merkleIndex == y.merkleIndex ==> x == y)
  {
    EveryRunIsGood(actions);
    var rows := Run(actions).rows;
    if k < |rows| {
      assert rows[k] in rows && rows[k].merkleIndex == k;
    }
  }

  /** All callers that succeed for one commitment get the same stored row, which carries the signature of each. */
  lemma RegistrationsAgree(actions: seq<Action>, j: nat, k: nat)
    requires var cs := Run(actions).callers;
      && j < |cs| && k < |cs| && cs[j].Finished? && cs[k].Finished?
      && cs[j].outcome.Registered? && cs[k].req.commitment == cs[j].req.commitment
    ensures var s := Run(actions);
      var row := s.callers[j].outcome.row;
      && row in s.rows && row.signature == s.callers[j].req.signature && row.signature in s.seen
      && (s.callers[k].outcome.Registered? ==>
            s.callers[k].outcome.row == row && s.callers[k].req.signature == row.signature)
      && (s.callers[k].outcome.Conflict? ==> s.callers[k].req.signature != row.signature)
  {
    EveryRunIsGood(actions);
    var s := Run(actions);
    assert CallerGood(s, s.callers[j]) && CallerGood(s, s.callers[k]);
  }

  // ----------------------------------------------------- what each await answers

  predicate HasCommitment(rows: seq<Row>, commitment: string)
  {
    exists k :: 0 <= k < |rows| && rows[k].commitment == commitment
  }

  /** A counted caller is registered by its next await exactly if its count is current and its commitment new. */
  lemma CountedSucceedsIff(actions: seq<Action>, who: nat, answer: TxAnswer)
    requires who < |Run(actions).callers| && Run(actions).callers[who].Counted?
    ensures var s := Run(actions);
      var req := s.callers[who].req;
      var row := Row(req.commitment, |s.rows|, req.amount, req.token, req.signature, req.creator);
      var s' := Step(s, Advance(who, answer));
      if s.callers[who].index == |s.rows| && !HasCommitment(s.rows, req.commitment)
      then s'.callers[who] == Finished(req, Registered(row)) && s'.rows == s.rows + [row]
      else s'.callers[who] == LostRace(req) && s'.rows == s.rows
  {
    EveryRunIsGood(actions);
    var s := Run(actions);
    var req, index := s.callers[who].req, s.callers[who].index;
    assert CallerGood(s, s.callers[who]);
    if index < |s.rows| {
      assert s.rows[index] in s.rows && s.rows[index].merkleIndex == index;
    }
    assert HasDuplicate(s.rows, NewRow(req, index)) <==> index < |s.rows| || HasCommitment(s.rows, req.commitment);
  }

  lemma FindOneIsTheRow(rows: seq<Row>, seen: set<string>, commitment: string)
    requires RowsGood(rows, seen)
    ensures FindOne(rows, commitment).Some? <==> HasCommitment(rows, commitment)
    ensures forall k :: 0 <= k < |rows| && rows[k].commitment == commitment ==>
      FindOne(rows, commitment) == Some(rows[k])
  {
    var found := FindOne(rows, commitment);
    if found.Some? {
      var j :| 0 <= j < |rows| && rows[j] == found.value;
    }
    forall k | 0 <= k < |rows| && rows[k].commitment == commitment ensures found == Some(rows[k]) {
      assert rows[k] in rows;
    }
  }

  /** Before asking the node and after a lost race, the stored row of the commitment decides, if there is one. */
  lemma StoredRowDecides(actions: seq<Action>, who: nat, answer: TxAnswer)
    requires who < |Run(actions).callers|
    requires Run(actions).callers[who].Arrived? || Run(actions).callers[who].LostRace?
    ensures var s := Run(actions);
      var c := s.callers[who];
      var next := Step(s, Advance(who, answer)).callers[who];
      && (forall k :: 0 <= k < |s.rows| && s.rows[k].commitment == c.req.commitment ==>
            next == Finished(c.req, if s.rows[k].signature == c.req.signature then Registered(s.rows[k]) else Conflict))
      && (!HasCommitment(s.rows, c.req.commitment) ==>
            next == if c.Arrived? then NoRowFound(c.req) else Finished(c.req, DuplicateKey))
  {
    EveryRunIsGood(actions);
    var s := Run(actions);
    FindOneIsTheRow(s.rows, s.seen, s.callers[who].req.commitment);
  }

  /** A transaction the node does not know, one that failed and one that landed have three different consequences. */
  lemma NodeAnswerDecides(s: System, who: nat, answer: TxAnswer)
    requires who < |s.callers| && s.callers[who].NoRowFound?
    ensures var s' := Step(s, Advance(who, answer));
      var req := s.callers[who].req;
      && s'.rows == s.rows
      && (s'.callers[who] == Finished(req, TxNotFound) <==> answer == NotVisible)
      && (s'.callers[who] == Finished(req, TxFailed) <==> answer == FailedOnChain)
      && (s'.callers[who] == Confirmed(req) <==> answer == Landed)
  {
  }

  lemma RunSnoc(actions: seq<Action>, a: Action)
    ensures Run(actions + [a]) == Step(Run(actions), a)
  {
    assert (actions + [a])[..|actions + [a]| - 1] == actions;
  }

  /** One registration up to its count, with nobody else in between. */
  function ToCount(who: nat, req: Request): seq<Action>
  {
    [Call(req)] + [Advance(who, Landed)] + [Advance(who, Landed)] + [Advance(who, Landed)]
  }

  lemma UndisturbedCount(actions: seq<Action>, req: Request)
    requires !HasCommitment(Run(actions).rows, req.commitment)
    ensures var s := Run(actions);
      var s' := Run(actions + ToCount(|s.callers|, req));
      s'.rows == s.rows && s'.callers == s.callers + [Counted(req, |s.rows|)]
  {
    var n := |Run(actions).callers|;
    var go := Advance(n, Landed);
    var called := actions + [Call(req)];
    RunSnoc(actions, Call(req));
    StoredRowDecides(called, n, Landed);
    RunSnoc(called, go);
    assert Run(called + [go]).callers == Run(actions).callers + [NoRowFound(req)];
    RunSnoc(called + [go], go);
    RunSnoc(called + [go] + [go], go);
    assert actions + ToCount(n, req) == called + [go] + [go] + [go];
  }

  /** Left alone, a landed deposit of a new commitment is stored at the next index, with all its data. */
  lemma UndisturbedRegistration(actions: seq<Action>, req: Request)
    requires !HasCommitment(Run(actions).rows, req.commitment)
    ensures var s := Run(actions);
      var row := Row(req.commitment, |s.rows|, req.amount, req.token, req.signature, req.creator);
      var s' := Run(actions + ToCount(|s.callers|, req) + [Advance(|s.callers|, Landed)]);
      && s'.rows == s.rows + [row]
      && s'.callers == s.callers + [Finished(req, Registered(row))]
  {
    var n := |Run(actions).callers|;
    var counted := actions + ToCount(n, req);
    UndisturbedCount(actions, req);
    CountedSucceedsIff(counted, n, Landed);
    RunSnoc(counted, Advance(n, Landed));
  }
}
