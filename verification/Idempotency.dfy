/** idempotency.py: concurrent requests over an insert-only cache of responses with a unique key. */
module Idempotency {
  import opened Words

  const HANDLED_METHODS: set<string> := {"POST", "PUT", "PATCH"}

  /** `bodyHash` is the SHA-256 of the body, all the cache looks at. */
  datatype Request = Request(verb: string, path: string, key: Option<string>, bodyHash: string)

  /** What a handler does with a request: it answers, in chunks, or raises. */
  datatype Handled = Raised | Answer(status: nat, chunks: seq<Bytes>)

  datatype Record = Record(bodyHash: string, verb: string, path: string, status: nat, body: Bytes)

  datatype Outcome = Responded(status: nat, body: Bytes) | Replayed(status: nat, body: Bytes) | KeyConflict | Failed

  /** Where a request stands between two awaits. */
  datatype Stage = Arrived | Handling | Buffered(status: nat, body: Bytes) | Done(outcome: Outcome)

  datatype Caller = Caller(req: Request, stage: Stage)

  /** `ran` collects the callers whose handler was started. */
  datatype System = System(records: map<string, Record>, callers: seq<Caller>, ran: set<nat>)

  datatype Action = Call(req: Request) | Advance(who: nat, handled: Handled)

  const EMPTY: System := System(map[], [], {})

  predicate Guarded(req: Request)
  {
    Upper(req.verb) in HANDLED_METHODS && req.key.Some? && req.key.value != ""
  }

  function Concat(chunks: seq<Bytes>): Bytes
  {
    if chunks == [] then [] else Concat(chunks[..|chunks| - 1]) + chunks[|chunks| - 1]
  }

  lemma {:induction false} ConcatAppends(xs: seq<Bytes>, ys: seq<Bytes>)
    ensures Concat(xs + ys) == Concat(xs) + Concat(ys)
  {
    if ys == [] {
      assert xs + ys == xs;
    } else {
      var last := |ys| - 1;
      ConcatAppends(xs, ys[..last]);
      assert (xs + ys)[..|xs + ys| - 1] == xs + ys[..last];
    }
  }

  lemma ConcatOne(chunk: Bytes)
    ensures Concat([chunk]) == chunk
  {
    assert [chunk][..0] == [];
  }

  /** Each chunk follows those before it. */
  lemma ChunkAt(chunks: seq<Bytes>, k: nat)
    requires k < |chunks|
    ensures Concat(chunks) == Concat(chunks[..k]) + chunks[k] + Concat(chunks[k + 1..])
  {
    var head, one, tail := chunks[..k], [chunks[k]], chunks[k + 1..];
    assert chunks == (head + one) + tail;
    ConcatAppends(head + one, tail);
    ConcatAppends(head, one);
    ConcatOne(chunks[k]);
  }

  /** The buffering loop over a streamed response: all chunks in their order. */
  method BufferBody(chunks: seq<Bytes>) returns (body: Bytes)
    ensures body == Concat(chunks)
    ensures forall k :: 0 <= k < |chunks| ==> body == Concat(chunks[..k]) + chunks[k] + Concat(chunks[k + 1..])
  {
    body := [];
    for i := 0 to |chunks|
      invariant body == Concat(chunks[..i])
    {
      assert chunks[..i + 1][..i] == chunks[..i];
      body := body + chunks[i];
    }
    assert chunks[..|chunks|] == chunks;
    forall k | 0 <= k < |chunks|
      ensures body == Concat(chunks[..k]) + chunks[k] + Concat(chunks[k + 1..])
    {
      ChunkAt(chunks, k);
    }
  }

  // -------------------------------------------------------------------- steps

  function NewRecord(req: Request, status: nat, body: Bytes): Record
  {
    Record(req.bodyHash, req.verb, req.path, status, body)
  }

  function AnswerFrom(record: Record, req: Request): Outcome
  {
    if record.bodyHash != req.bodyHash then KeyConflict else Replayed(record.status, record.body)
  }

  /** One request's next await, with what its handler does if the handler is running. */
  function AdvanceCaller(records: map<string, Record>, c: Caller, handled: Handled)
    : (map<string, Record>, Stage)
  {
    match c.stage
    case Arrived =>
      (records, if Guarded(c.req) && c.req.key.value in records
                then Done(AnswerFrom(records[c.req.key.value], c.req)) else Handling)
    case Handling =>
      (records, match handled
                case Raised => Done(Failed)
                case Answer(status, chunks) =>
                  if Guarded(c.req) then Buffered(status, Concat(chunks)) else Done(Responded(status, Concat(chunks))))
    case Buffered(status, body) =>
      (if Guarded(c.req) && c.req.key.value !in records
       then records[c.req.key.value := NewRecord(c.req, status, body)] else records,
       Done(Responded(status, body)))
    case Done(_) => (records, c.stage)
  }

  function Step(s: System, a: Action): System
  {
    match a
    case Call(req) => s.(callers := s.callers + [Caller(req, Arrived)])
    case Advance(who, handled) =>
      if who >= |s.callers| then s
      else
        var c := s.callers[who];
        var (records, stage) := AdvanceCaller(s.records, c, handled);
        System(records, s.callers[who := c.(stage := stage)], if stage.Handling? then s.ran + {who} else s.ran)
  }

  function Run(s: System, actions: seq<Action>): System
  {
    if actions == [] then s else Step(Run(s, actions[..|actions| - 1]), actions[|actions| - 1])
  }

  // --------------------------------------------------------------- invariants

  /** The record is the response of a request that carried the key and got that very response. */
  ghost predicate Owned(s: System, key: string)
    requires key in s.records
  {
    var r := s.records[key];
    exists k :: 0 <= k < |s.callers| && Guarded(s.callers[k].req) && s.callers[k].req.key == Some(key)
                && s.callers[k].stage == Done(Responded(r.status, r.body)) && k in s.ran
                && r == NewRecord(s.callers[k].req, r.status, r.body)
  }

  /** Only a replay or a conflict spares the handler, and each rests on the one record of the key. */
  ghost predicate CallerGood(s: System, k: nat)
    requires k < |s.callers|
  {
    var c := s.callers[k];
    var answered := c.stage.Done? && (c.stage.outcome.Replayed? || c.stage.outcome.KeyConflict?);
    && (k in s.ran <==> !c.stage.Arrived? && !answered)
    && (answered ==> Guarded(c.req) && c.req.key.value in s.records
                     && c.stage.outcome == AnswerFrom(s.records[c.req.key.value], c.req))
  }

  ghost predicate Good(s: System)
  {
    && (forall k :: k in s.ran ==> k < |s.callers|)
    && (forall k :: 0 <= k < |s.callers| ==> CallerGood(s, k))
    && (forall key :: key in s.records ==> Owned(s, key))
  }

  ghost predicate Keeps(before: map<string, Record>, after: map<string, Record>)
  {
    forall key :: key in before ==> key in after && after[key] == before[key]
  }

  lemma OwnedStays(s: System, a: Action, key: string)
    requires key in s.records && Owned(s, key)
    ensures key in Step(s, a).records && Owned(Step(s, a), key)
  {
  }

  lemma CallerStaysGood(s: System, a: Action, k: nat)
    requires Good(s) && k < |Step(s, a).callers|
    ensures CallerGood(Step(s, a), k)
  {
    if k < |s.callers| {
      assert CallerGood(s, k);
    } else {
      assert k !in s.ran;
    }
  }

  /** The only new record is that of the caller whose response was buffered. */
  lemma RecordsOnlyGrow(s: System, a: Action)
    ensures Keeps(s.records, Step(s, a).records)
    ensures forall key :: key in Step(s, a).records && key !in s.records ==>
      a.Advance? && a.who < |s.callers| && s.callers[a.who].stage.Buffered?
      && Guarded(s.callers[a.who].req) && s.callers[a.who].req.key == Some(key)
  {
  }

  lemma StepKeepsGood(s: System, a: Action)
    requires Good(s)
    ensures Good(Step(s, a)) && Keeps(s.records, Step(s, a).records)
  {
    var s' := Step(s, a);
    RecordsOnlyGrow(s, a);
    forall k | 0 <= k < |s'.callers| ensures CallerGood(s', k) {
      CallerStaysGood(s, a, k);
    }
    forall key | key in s'.records ensures Owned(s', key) {
      if key in s.records {
        OwnedStays(s, a, key);
      } else {
        assert CallerGood(s, a.who);
        assert s'.callers[a.who].req.key == Some(key);
      }
    }
  }

  /** In every interleaving of any number of requests the invariant holds and no record changes. */
  lemma {:induction false} EveryRunIsGood(s: System, actions: seq<Action>)
    requires Good(s)
    ensures var s' := Run(s, actions);
      Good(s') && Keeps(s.records, s'.records) && |s.callers| <= |s'.callers|
    ensures forall k :: 0 <= k < |s.callers| ==> Run(s, actions).callers[k].req == s.callers[k].req
  {
    if actions != [] {
      var n := |actions| - 1;
      EveryRunIsGood(s, actions[..n]);
      StepKeepsGood(Run(s, actions[..n]), actions[n]);
    }
  }

  /** A request that has not run its handler and is answered, if at all, from this record. */
  predicate SparedBy(s: System, k: nat, record: Record)
  {
    && k < |s.callers| && k !in s.ran
    && Guarded(s.callers[k].req) && s.callers[k].req.key.value in s.records
    && s.records[s.callers[k].req.key.value] == record
    && (s.callers[k].stage == Arrived
        || s.callers[k].stage == Done(if s.callers[k].req.bodyHash == record.bodyHash
                                      then Replayed(record.status, record.body) else KeyConflict))
  }

  lemma StaysSpared(s: System, a: Action, k: nat, record: Record)
    requires SparedBy(s, k, record)
    ensures SparedBy(Step(s, a), k, record)
  {
  }

  /** A request not yet looked up when its key is on record never runs the handler, however the run goes on. */
  lemma {:induction false} RecordedKeyStopsHandlers(s: System, later: seq<Action>, k: nat)
    requires Good(s) && k < |s.callers| && s.callers[k].stage.Arrived?
    requires Guarded(s.callers[k].req) && s.callers[k].req.key.value in s.records
    ensures SparedBy(Run(s, later), k, s.records[s.callers[k].req.key.value])
  {
    if later != [] {
      var n := |later| - 1;
      RecordedKeyStopsHandlers(s, later[..n], k);
      StaysSpared(Run(s, later[..n]), later[n], k, s.records[s.callers[k].req.key.value]);
    } else {
      assert CallerGood(s, k);
    }
  }

  /** Whatever the verb and the path: a caller spared its handler was replayed exactly if the body hashes agree. */
  lemma OnlyTheHashDecides(actions: seq<Action>, k: nat)
    requires k < |Run(EMPTY, actions).callers| && k !in Run(EMPTY, actions).ran
    requires Run(EMPTY, actions).callers[k].stage.Done?
    ensures var s := Run(EMPTY, actions);
      var c := s.callers[k];
      && Guarded(c.req) && c.req.key.value in s.records
      && var record := s.records[c.req.key.value];
      && (c.stage.outcome == Replayed(record.status, record.body) <==> c.req.bodyHash == record.bodyHash)
      && (c.stage.outcome == KeyConflict <==> c.req.bodyHash != record.bodyHash)
  {
    EveryRunIsGood(EMPTY, actions);
    assert CallerGood(Run(EMPTY, actions), k);
  }

  // ------------------------------------------------------- what a client sees

  /** The request got an answer from its handler, from the cache, or a conflict; a raised error is none. */
  predicate Answered(c: Caller)
  {
    c.stage.Done? && !c.stage.outcome.Failed?
  }

  ghost predicate AnsweredKeysRecorded(s: System)
  {
    forall c :: c in s.callers && Guarded(c.req) && Answered(c) ==> c.req.key.value in s.records
  }

  /** No response leaves before its key is on record. */
  lemma {:induction false} AnswersAreRecorded(actions: seq<Action>)
    ensures AnsweredKeysRecorded(Run(EMPTY, actions))
  {
    if actions != [] {
      AnswersAreRecorded(actions[..|actions| - 1]);
    }
  }

  lemma {:induction false} RunInTwo(s: System, first: seq<Action>, second: seq<Action>)
    ensures Run(s, first + second) == Run(Run(s, first), second)
  {
    if second == [] {
      assert first + second == first;
    } else {
      var n := |second| - 1;
      RunInTwo(s, first, second[..n]);
      assert (first + second)[..|first + second| - 1] == first + second[..n];
    }
  }

  /** A request that arrives after any answer for its key has been returned never runs its handler. */
  lemma LaterRequestsAreSpared(actions: seq<Action>, j: nat, req: Request, later: seq<Action>)
    requires j < |Run(EMPTY, actions).callers| && Guarded(req)
    requires var c := Run(EMPTY, actions).callers[j]; Guarded(c.req) && Answered(c) && c.req.key == req.key
    ensures var before := Run(EMPTY, actions);
      var s := Run(EMPTY, actions + [Call(req)] + later);
      && req.key.value in before.records
      && SparedBy(s, |before.callers|, before.records[req.key.value])
      && s.callers[|before.callers|].req == req
  {
    var before := Run(EMPTY, actions);
    EveryRunIsGood(EMPTY, actions);
    AnswersAreRecorded(actions);
    assert before.callers[j] in before.callers;
    RunSnoc(EMPTY, actions, Call(req));
    StepKeepsGood(before, Call(req));
    RunInTwo(EMPTY, actions + [Call(req)], later);
    RecordedKeyStopsHandlers(Step(before, Call(req)), later, |before.callers|);
    EveryRunIsGood(Step(before, Call(req)), later);
  }

  /** A record implies a caller that already got its answer. */
  lemma RecordIsAnswered(actions: seq<Action>, req: Request)
    requires Guarded(req) && req.key.value in Run(EMPTY, actions).records
    ensures exists c :: c in Run(EMPTY, actions).callers && AnsweredFor(c, req)
  {
    EveryRunIsGood(EMPTY, actions);
    var s := Run(EMPTY, actions);
    assert Owned(s, req.key.value);
    var r := s.records[req.key.value];
    var k :| 0 <= k < |s.callers| && Guarded(s.callers[k].req) && s.callers[k].req.key == Some(req.key.value)
             && s.callers[k].stage == Done(Responded(r.status, r.body));
    assert AnsweredFor(s.callers[k], req) && s.callers[k] in s.callers;
  }

  predicate AnsweredFor(c: Caller, req: Request)
  {
    Guarded(c.req) && Answered(c) && c.req.key == req.key
  }

  /** A request with no record of its key on arrival runs its handler if its lookup comes next. */
  lemma NextLookupRuns(actions: seq<Action>, req: Request)
    requires Guarded(req) && req.key.value !in Run(EMPTY, actions).records
    ensures |Run(EMPTY, actions).callers|
         in Run(EMPTY, actions + [Call(req)] + [Advance(|Run(EMPTY, actions).callers|, Raised)]).ran
  {
    var n := |Run(EMPTY, actions).callers|;
    RunSnoc(EMPTY, actions, Call(req));
    RunSnoc(EMPTY, actions + [Call(req)], Advance(n, Raised));
  }

  /** A request is sure to be spared exactly if an answer for its key was returned before it arrived. */
  lemma SparedIffAnsweredBefore(actions: seq<Action>, req: Request)
    requires Guarded(req)
    ensures (forall later :: |Run(EMPTY, actions).callers| !in Run(EMPTY, actions + [Call(req)] + later).ran)
      <==> exists c :: c in Run(EMPTY, actions).callers && AnsweredFor(c, req)
  {
    var s := Run(EMPTY, actions);
    if c :| c in s.callers && AnsweredFor(c, req) {
      var j :| 0 <= j < |s.callers| && s.callers[j] == c;
      forall later ensures |s.callers| !in Run(EMPTY, actions + [Call(req)] + later).ran {
        LaterRequestsAreSpared(actions, j, req, later);
      }
    } else if req.key.value in s.records {
      RecordIsAnswered(actions, req);
    } else {
      NextLookupRuns(actions, req);
    }
  }

  predicate WasReplayed(c: Caller)
  {
    c.stage.Done? && c.stage.outcome.Replayed?
  }

  /** All replays of one key give one response: that of a request with the same body hash, whose handler ran. */
  lemma ReplaysAgree(actions: seq<Action>, k: nat)
    requires k < |Run(EMPTY, actions).callers| && WasReplayed(Run(EMPTY, actions).callers[k])
    ensures var s := Run(EMPTY, actions);
      var c := s.callers[k];
      && k !in s.ran
      && (exists j :: 0 <= j < |s.callers| && j in s.ran && s.callers[j].req.key == c.req.key
                      && s.callers[j].req.bodyHash == c.req.bodyHash
                      && s.callers[j].stage == Done(Responded(c.stage.outcome.status, c.stage.outcome.body)))
      && (forall i :: 0 <= i < |s.callers| && s.callers[i].req.key == c.req.key && WasReplayed(s.callers[i]) ==>
                        s.callers[i].stage == c.stage)
  {
    EveryRunIsGood(EMPTY, actions);
    var s := Run(EMPTY, actions);
    assert CallerGood(s, k);
    assert Owned(s, s.callers[k].req.key.value);
    forall i | 0 <= i < |s.callers| && s.callers[i].req.key == s.callers[k].req.key && WasReplayed(s.callers[i])
      ensures s.callers[i].stage == s.callers[k].stage
    {
      assert CallerGood(s, i);
    }
  }

  lemma RunSnoc(s: System, actions: seq<Action>, a: Action)
    ensures Run(s, actions + [a]) == Step(Run(s, actions), a)
  {
  }

  /** One request sent twice, and looked up twice before either response is stored. */
  function Overlap(req: Request): seq<Action>
  {
    [Call(req)] + [Call(req)] + [Advance(0, Raised)] + [Advance(1, Raised)]
  }

  /** Both handlers answer, then both responses are offered to the cache. */
  function Answers(first: Handled, second: Handled): seq<Action>
  {
    [Advance(0, first)] + [Advance(1, second)] + [Advance(0, first)] + [Advance(1, second)]
  }

  lemma RunFour(s: System, a: Action, b: Action, c: Action, d: Action)
    ensures Run(s, [a] + [b] + [c] + [d]) == Step(Step(Step(Step(s, a), b), c), d)
  {
    assert [] + [a] == [a];
    RunSnoc(s, [], a);
    RunSnoc(s, [a], b);
    RunSnoc(s, [a] + [b], c);
    RunSnoc(s, [a] + [b] + [c], d);
  }

  lemma OverlapReaches(req: Request)
    requires Guarded(req)
    ensures Run(EMPTY, Overlap(req)) == System(map[], [Caller(req, Handling), Caller(req, Handling)], {0, 1})
  {
    RunFour(EMPTY, Call(req), Call(req), Advance(0, Raised), Advance(1, Raised));
  }

  /** Overlapping retries both run the handler and keep their own responses; the cache holds the first one stored. */
  lemma OverlappingRetriesBothRun(req: Request, first: Handled, second: Handled)
    requires Guarded(req) && first.Answer? && second.Answer?
    ensures var s := Run(Run(EMPTY, Overlap(req)), Answers(first, second));
      && s.ran == {0, 1}
      && s.callers == [Caller(req, Done(Responded(first.status, Concat(first.chunks)))),
                       Caller(req, Done(Responded(second.status, Concat(second.chunks))))]
      && s.records == map[req.key.value := Record(req.bodyHash, req.verb, req.path, first.status, Concat(first.chunks))]
  {
    OverlapReaches(req);
    RunFour(Run(EMPTY, Overlap(req)), Advance(0, first), Advance(1, second), Advance(0, first), Advance(1, second));
  }

  /** A request is answered from the record of another verb and path as long as key and body hash agree. */
  lemma OtherPathIsReplayed(first: Request, second: Request, answer: Handled)
    requires Guarded(first) && Guarded(second) && first.key == second.key && answer.Answer?
    ensures var one := [Call(first)] + [Advance(0, Raised)] + [Advance(0, answer)] + [Advance(0, Raised)];
      var s := Run(EMPTY, one + ([Call(second)] + [Advance(1, Raised)]));
      var body := Concat(answer.chunks);
      && s.ran == {0}
      && s.callers == [Caller(first, Done(Responded(answer.status, body))),
                       Caller(second, Done(if second.bodyHash == first.bodyHash then Replayed(answer.status, body)
                                           else KeyConflict))]
  {
    var one := [Call(first)] + [Advance(0, Raised)] + [Advance(0, answer)] + [Advance(0, Raised)];
    RunFour(EMPTY, Call(first), Advance(0, Raised), Advance(0, answer), Advance(0, Raised));
    var s := Run(EMPTY, one);
    assert s.callers == [Caller(first, Done(Responded(answer.status, Concat(answer.chunks))))];
    RunInTwo(EMPTY, one, [Call(second)] + [Advance(1, Raised)]);
    assert [] + [Call(second)] == [Call(second)];
    RunSnoc(s, [], Call(second));
    RunSnoc(s, [Call(second)], Advance(1, Raised));
  }

  // ------------------------------------------------------- requests passed through

  /** The cache is for the three writing methods, in any case of letters, and a key that is not empty. */
  lemma WhatIsGuarded(req: Request)
    ensures Guarded(req) <==>
      && req.key.Some? && |req.key.value| > 0
      && (Upper(req.verb) == "POST" || Upper(req.verb) == "PUT" || Upper(req.verb) == "PATCH")
    ensures req.verb == "post" && req.key == Some("k") ==> Guarded(req)
    ensures req.verb == "GET" || req.key == None || req.key == Some("") ==> !Guarded(req)
  {
    assert Upper("post") == "POST" && Upper("GET") == "GET";
  }

  /** A request outside the cache gets its own handler's answer, whatever is on record, and leaves no record. */
  lemma OthersPassThrough(s: System, req: Request, handled: Handled)
    requires !Guarded(req)
    ensures var n := |s.callers|;
      var s' := Run(s, [Call(req)] + [Advance(n, Raised)] + [Advance(n, handled)]);
      && n in s'.ran && s'.records == s.records
      && s'.callers == s.callers + [Caller(req, Done(if handled.Raised? then Failed
                                                     else Responded(handled.status, Concat(handled.chunks))))]
  {
    RunThree(s, Call(req), Advance(|s.callers|, Raised), Advance(|s.callers|, handled));
  }

  /** A handler that raises leaves no record either, so its key is free for a retry. */
  lemma RaisedLeavesNoRecord(s: System, req: Request)
    requires Guarded(req) && req.key.value !in s.records
    ensures var n := |s.callers|;
      var s' := Run(s, [Call(req)] + [Advance(n, Raised)] + [Advance(n, Raised)]);
      n in s'.ran && s'.records == s.records && s'.callers == s.callers + [Caller(req, Done(Failed))]
  {
    RunThree(s, Call(req), Advance(|s.callers|, Raised), Advance(|s.callers|, Raised));
  }

  lemma RunThree(s: System, a: Action, b: Action, c: Action)
    ensures Run(s, [a] + [b] + [c]) == Step(Step(Step(s, a), b), c)
  {
    assert [] + [a] == [a];
    RunSnoc(s, [], a);
    RunSnoc(s, [a], b);
    RunSnoc(s, [a] + [b], c);
  }
}
