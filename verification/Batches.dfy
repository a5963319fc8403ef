/** What a batch of offered operations leads to, one by one: what is taken, what can
    only be refused when the deferral budget is exhausted, and what never is. */
module Batches {
  import opened VersionVectors
  import opened Histories
  import opened Delivery

  /** There is room to hold a whole batch back. */
  predicate Roomy(budget: Budget, queued: nat, bytes: nat, count: nat, size: nat) {
    budget.bytes > 0 && queued + count <= budget.operations && bytes + size <= budget.bytes
  }

  /** Such a batch is never refused for lack of room. */
  lemma {:induction false} StaysRoomy(budget: Budget, queued: nat, bytes: nat, cost: Operation -> nat, ops: seq<Operation>, i: nat,
                                      nowQueued: nat, nowBytes: nat)
    requires i < |ops| && Roomy(budget, queued, bytes, |ops|, TotalCost(cost, ops))
    requires nowQueued <= queued + i && nowBytes <= bytes + TotalCost(cost, ops[..i])
    ensures !Exhausted(budget, nowQueued, nowBytes, cost(ops[i]))
  {
    CostOfPrefix(cost, ops, i);
    hide TotalCost;
  }

  /** What a batch offers that can be applied at all. */
  ghost function AcceptedOf(ops: seq<Operation>): set<Operation> {
    set o | o in ops && Accepted(o)
  }

  /** The operation is the replica's now: applied, known or waiting. */
  predicate Takes(o: Operation, out: Outcome) {
    Accepted(o) && !out.Refused?
  }

  ghost function Taken(ops: seq<Operation>, outcomes: seq<Outcome>): set<Operation>
    requires |ops| == |outcomes|
  {
    set i | 0 <= i < |ops| && Takes(ops[i], outcomes[i]) :: ops[i]
  }

  lemma {:induction false} AllTaken(ops: seq<Operation>, outcomes: seq<Outcome>)
    requires |outcomes| == |ops| && NoneRefused(ops, outcomes)
    ensures Taken(ops, outcomes) == AcceptedOf(ops)
  {
    forall o | o in AcceptedOf(ops)
      ensures o in Taken(ops, outcomes)
    {
      var i :| 0 <= i < |ops| && ops[i] == o;
      assert Takes(ops[i], outcomes[i]);
    }
  }

  lemma TakenStep(ops: seq<Operation>, outcomes: seq<Outcome>, i: nat, out: Outcome)
    requires i < |ops| && |outcomes| == i
    ensures Taken(ops[..i + 1], outcomes + [out]) == Taken(ops[..i], outcomes) + (if Takes(ops[i], out) then {ops[i]} else {})
  {
    var more := outcomes + [out];
    assert forall j :: 0 <= j < i ==> ops[..i + 1][j] == ops[..i][j] && more[j] == outcomes[j];
    assert ops[..i + 1][i] == ops[i] && more[i] == out;
  }

  // ---- Operations that come in time ----------------------------------------

  /** The operations of a batch that come when they are ready and not waiting yet,
      with what was applied before, and all others, with what was waiting before. */
  ghost function Prompt(u: set<Operation>, a: set<Operation>, w: set<Operation>, ops: seq<Operation>): (set<Operation>, set<Operation>) {
    if ops == [] then (a, w)
    else
      var o, rest := ops[|ops| - 1], Prompt(u, a, w, ops[..|ops| - 1]);
      if Accepted(o) && Ready(u, rest.0, o) && o !in rest.1 then (rest.0 + {o}, rest.1) else (rest.0, rest.1 + {o})
  }

  lemma {:induction false} PromptStep(u: set<Operation>, a: set<Operation>, w: set<Operation>, ops: seq<Operation>, i: nat)
    requires i < |ops|
    ensures var o, rest := ops[i], Prompt(u, a, w, ops[..i]);
            Prompt(u, a, w, ops[..i + 1])
            == if Accepted(o) && Ready(u, rest.0, o) && o !in rest.1 then (rest.0 + {o}, rest.1) else (rest.0, rest.1 + {o})
  {
    assert ops[..i + 1][..i] == ops[..i];
  }

  /** No prompt operation is held back. */
  lemma {:induction false} PromptIsDone(u: set<Operation>, a: set<Operation>, w: set<Operation>, ops: seq<Operation>, i: nat,
                                        b: set<Operation>, queue: seq<Operation>, full: bool, out: Outcome)
    requires Honest(u) && Held(queue) <= u && Held(queue) !! b && i < |ops| && (Accepted(ops[i]) ==> ops[i] in u)
    requires Prompt(u, a, w, ops[..i]).0 <= b && Held(queue) <= Prompt(u, a, w, ops[..i]).1
    requires Accepted(ops[i]) ==> Answers(u, b, Held(queue), full, ops[i], out)
    requires !Accepted(ops[i]) ==> !out.Done? && !out.Deferred?
    ensures Prompt(u, a, w, ops[..i + 1]).0 <= b + (if out.Done? then {ops[i]} else {})
    ensures Held(queue) + (if out.Deferred? then {ops[i]} else {}) <= Prompt(u, a, w, ops[..i + 1]).1
    ensures Held(queue) + (if out.Deferred? then {ops[i]} else {}) !! b + (if out.Done? then {ops[i]} else {})
  {
    var o, rest := ops[i], Prompt(u, a, w, ops[..i]);
    PromptStep(u, a, w, ops, i);
    hide Prompt, Accepted, Honest, Behind;
    if Accepted(o) && Ready(u, rest.0, o) && o !in rest.1 {
      assert o !in Held(queue);
      if o !in b { ReadyIsNotBehind(u, b, Held(queue), o); }
    }
    if out.Done? { DoneIsNotWaiting(u, b, queue, full, o, out); }
  }

  lemma {:induction false} DoneIsNotWaiting(u: set<Operation>, b: set<Operation>, queue: seq<Operation>, full: bool, o: Operation, out: Outcome)
    requires Answers(u, b, Held(queue), full, o, out) && out.Done?
    ensures o !in Held(queue)
  {
  }

  /** What is ready before a batch and not waiting is prompt wherever it comes in it. */
  lemma {:induction false} ReadyIsPrompt(u: set<Operation>, a: set<Operation>, w: set<Operation>, ops: seq<Operation>, o: Operation)
    requires o in ops && Accepted(o) && Ready(u, a, o) && o !in w
    ensures o in Prompt(u, a, w, ops).0
  {
    var n := |ops| - 1;
    var rest := Prompt(u, a, w, ops[..n]);
    PromptGrows(u, a, w, ops[..n]);
    hide Accepted;
    if o in ops[..n] {
      ReadyIsPrompt(u, a, w, ops[..n], o);
    }
  }

  lemma {:induction false} PromptGrows(u: set<Operation>, a: set<Operation>, w: set<Operation>, ops: seq<Operation>)
    ensures a <= Prompt(u, a, w, ops).0 && Prompt(u, a, w, ops).1 <= w + Held(ops)
  {
    hide Accepted, Ready;
    if ops != [] {
      PromptGrows(u, a, w, ops[..|ops| - 1]);
      HeldStep(ops, |ops| - 1);
      assert ops[..|ops|] == ops;
    }
  }

  /** Every operation of the batch depends on applied ones and earlier ones of the
      batch only. */
  ghost predicate InTurn(u: set<Operation>, a: set<Operation>, ops: seq<Operation>) {
    forall i, p :: 0 <= i < |ops| && p in u && Observed(ops[i].version, p.timestamp) ==> p in a || p in ops[..i]
  }

  /** So a batch of accepted operations in causal order is prompt as a whole. */
  lemma {:induction false} InTurnIsPrompt(u: set<Operation>, a: set<Operation>, w: set<Operation>, ops: seq<Operation>)
    requires InTurn(u, a, ops) && (forall o :: o in ops ==> Accepted(o) && o !in w)
    ensures Prompt(u, a, w, ops) == (a + Held(ops), w)
  {
    hide Accepted;
    if ops == [] {
      assert a + Held(ops) == a;
    } else {
      hide InTurn, Ready, Held;
      var n := |ops| - 1;
      FrontInTurn(u, a, ops);
      InTurnIsPrompt(u, a, w, ops[..n]);
      LastInTurn(u, a, ops);
      HeldStep(ops, n);
      assert ops[..n + 1] == ops && ops[n] in ops;
      assert a + Held(ops) == a + Held(ops[..n]) + {ops[n]};
    }
  }

  lemma {:induction false} FrontInTurn(u: set<Operation>, a: set<Operation>, ops: seq<Operation>)
    requires ops != [] && InTurn(u, a, ops)
    ensures InTurn(u, a, ops[..|ops| - 1])
  {
    var front := ops[..|ops| - 1];
    forall i, p | 0 <= i < |front| && p in u && Observed(front[i].version, p.timestamp)
      ensures p in a || p in front[..i]
    {
      assert front[i] == ops[i] && front[..i] == ops[..i];
    }
  }

  lemma {:induction false} LastInTurn(u: set<Operation>, a: set<Operation>, ops: seq<Operation>)
    requires ops != [] && InTurn(u, a, ops)
    ensures Ready(u, a + Held(ops[..|ops| - 1]), ops[|ops| - 1])
  {
  }

  // ---- Every answer ----------------------------------------------------------

  /** What decides the answer to an offer. */
  datatype Standing = Standing(applied: set<Operation>, waiting: set<Operation>, count: nat, bytes: nat)

  ghost predicate AnswersIn(u: set<Operation>, budget: Budget, cost: Operation -> nat, s: Standing, o: Operation, out: Outcome) {
    Answers(u, s.applied, s.waiting, Exhausted(budget, s.count, s.bytes, cost(o)), o, out)
  }

  /** How one offer changes it. */
  ghost function Offer(u: set<Operation>, budget: Budget, cost: Operation -> nat, s: Standing, o: Operation): Standing {
    if !Accepted(o) || o in s.applied then s
    else if Ready(u, s.applied, o) && !Behind(s.waiting, o) then s.(applied := s.applied + {o})
    else if Exhausted(budget, s.count, s.bytes, cost(o)) then s
    else Standing(s.applied, s.waiting + {o}, s.count + 1, s.bytes + cost(o))
  }

  ghost function Offers(u: set<Operation>, budget: Budget, cost: Operation -> nat, s: Standing, ops: seq<Operation>): Standing {
    if ops == [] then s else Offer(u, budget, cost, Offers(u, budget, cost, s, ops[..|ops| - 1]), ops[|ops| - 1])
  }

  /** Every accepted operation gets the answer of its turn. */
  ghost predicate Answered(u: set<Operation>, budget: Budget, cost: Operation -> nat, s: Standing, ops: seq<Operation>, outcomes: seq<Outcome>)
    requires |outcomes| <= |ops|
  {
    forall i :: 0 <= i < |outcomes| && Accepted(ops[i]) ==> AnswersIn(u, budget, cost, Offers(u, budget, cost, s, ops[..i]), ops[i], outcomes[i])
  }

  lemma {:induction false} NothingAnswered(u: set<Operation>, budget: Budget, cost: Operation -> nat, s: Standing, ops: seq<Operation>)
    ensures Answered(u, budget, cost, s, ops, []) && Offers(u, budget, cost, s, ops[..0]) == s
  {
  }

  lemma {:induction false} OneAnswered(u: set<Operation>, budget: Budget, cost: Operation -> nat, s: Standing, ops: seq<Operation>,
                                       outcomes: seq<Outcome>, now: Standing, out: Outcome, next: Standing)
    requires |outcomes| < |ops| && Answered(u, budget, cost, s, ops, outcomes) && now == Offers(u, budget, cost, s, ops[..|outcomes|])
    requires var o := ops[|outcomes|];
             && (if Accepted(o) then AnswersIn(u, budget, cost, now, o, out) else out.Refused? || out.Duplicate?)
             && next == Standing(now.applied + (if out.Done? then {o} else {}), now.waiting + (if out.Deferred? then {o} else {}),
                                 now.count + (if out.Deferred? then 1 else 0), now.bytes + if out.Deferred? then cost(o) else 0)
    ensures Answered(u, budget, cost, s, ops, outcomes + [out]) && next == Offers(u, budget, cost, s, ops[..|outcomes| + 1])
  {
    var i := |outcomes|;
    assert ops[..i + 1][..i] == ops[..i];
    OfferIs(u, budget, cost, now, ops[i], out, next);
    hide Accepted, AnswersIn, Offer;
  }

  lemma {:induction false} OfferIs(u: set<Operation>, budget: Budget, cost: Operation -> nat, s: Standing, o: Operation, out: Outcome, next: Standing)
    requires if Accepted(o) then AnswersIn(u, budget, cost, s, o, out) else out.Refused? || out.Duplicate?
    requires next == Standing(s.applied + (if out.Done? then {o} else {}), s.waiting + (if out.Deferred? then {o} else {}),
                              s.count + (if out.Deferred? then 1 else 0), s.bytes + if out.Deferred? then cost(o) else 0)
    ensures next == Offer(u, budget, cost, s, o)
  {
    hide Accepted, Ready, Behind, Exhausted;
  }

  // ---- Offering one after the other ---------------------------------------

  /** The first `i` operations were offered: what is applied and waiting now, from
      `was` and `held` with `count` operations of `size` bytes. */
  ghost predicate Offering(u: set<Operation>, budget: Budget, cost: Operation -> nat, ops: seq<Operation>, was: set<Operation>, held: set<Operation>,
                           count: nat, size: nat, outcomes: seq<Outcome>, a: set<Operation>, queue: seq<Operation>, bytes: nat)
    requires |outcomes| <= |ops|
  {
    var first := ops[..|outcomes|];
    && a + Held(queue) == was + held + Taken(first, outcomes)
    && |queue| <= count + |first| && bytes <= size + TotalCost(cost, first)
    && (Roomy(budget, count, size, |ops|, TotalCost(cost, ops)) ==> NoneRefused(first, outcomes))
    && OthersRefused(first, outcomes)
    && (was !! held ==>
          a !! Held(queue) && Prompt(u, was, held, first).0 <= a && Held(queue) <= Prompt(u, was, held, first).1)
  }

  ghost predicate NoneRefused(ops: seq<Operation>, outcomes: seq<Outcome>)
    requires |ops| == |outcomes|
  {
    forall i :: 0 <= i < |ops| && Accepted(ops[i]) ==> !outcomes[i].Refused?
  }

  ghost predicate OthersRefused(ops: seq<Operation>, outcomes: seq<Outcome>)
    requires |ops| == |outcomes|
  {
    forall i :: 0 <= i < |ops| && !Accepted(ops[i]) ==> outcomes[i].Refused? || outcomes[i].Duplicate?
  }

  lemma {:induction false} NothingOffered(u: set<Operation>, budget: Budget, cost: Operation -> nat, ops: seq<Operation>,
                                          a: set<Operation>, queue: seq<Operation>, bytes: nat)
    ensures Offering(u, budget, cost, ops, a, Held(queue), |queue|, bytes, [], a, queue, bytes)
  {
    assert ops[..0] == [];
    assert Taken([], []) == {};
    hide Roomy, Accepted;
  }

  lemma {:induction false} OneOffered(u: set<Operation>, budget: Budget, cost: Operation -> nat, ops: seq<Operation>, was: set<Operation>,
                                      held: set<Operation>, count: nat, size: nat, outcomes: seq<Outcome>, a: set<Operation>, queue: seq<Operation>,
                                      bytes: nat, out: Outcome, queue': seq<Operation>, bytes': nat)
    requires |outcomes| < |ops| && Offering(u, budget, cost, ops, was, held, count, size, outcomes, a, queue, bytes)
    requires Honest(u) && Held(queue) <= u && (Accepted(ops[|outcomes|]) ==> ops[|outcomes|] in u)
    requires Accepted(ops[|outcomes|]) ==>
               Answers(u, a, Held(queue), Exhausted(budget, |queue|, bytes, cost(ops[|outcomes|])), ops[|outcomes|], out)
    requires !Accepted(ops[|outcomes|]) ==> out.Refused? || out.Duplicate?
    requires Held(queue') == Held(queue) + (if out.Deferred? then {ops[|outcomes|]} else {})
    requires |queue'| <= |queue| + 1 && bytes' <= bytes + cost(ops[|outcomes|])
    ensures Offering(u, budget, cost, ops, was, held, count, size, outcomes + [out],
                     a + (if out.Done? then {ops[|outcomes|]} else {}), queue', bytes')
  {
    hide *;
    var i := |outcomes|;
    OfferingParts(u, budget, cost, ops, was, held, count, size, outcomes, a, queue, bytes);
    TakenStep(ops, outcomes, i, out);
    TakenNow(u, a, queue, Exhausted(budget, |queue|, bytes, cost(ops[i])), ops[i], out);
    CostOfPrefix(cost, ops, i);
    if Roomy(budget, count, size, |ops|, TotalCost(cost, ops)) {
      StaysRoomy(budget, count, size, cost, ops, i, |queue|, bytes);
      NoneRefusedStep(u, a, queue, ops, outcomes, out);
    }
    OthersRefusedStep(ops, outcomes, out);
    if was !! held { PromptIsDone(u, was, held, ops, i, a, queue, Exhausted(budget, |queue|, bytes, cost(ops[i])), out); }
    OfferingIs(u, budget, cost, ops, was, held, count, size, outcomes + [out], a + (if out.Done? then {ops[i]} else {}), queue', bytes');
  }

  lemma {:induction false} OfferingParts(u: set<Operation>, budget: Budget, cost: Operation -> nat, ops: seq<Operation>, was: set<Operation>,
                                         held: set<Operation>, count: nat, size: nat, outcomes: seq<Outcome>, a: set<Operation>,
                                         queue: seq<Operation>, bytes: nat)
    requires |outcomes| <= |ops| && Offering(u, budget, cost, ops, was, held, count, size, outcomes, a, queue, bytes)
    ensures var first := ops[..|outcomes|];
            && a + Held(queue) == was + held + Taken(first, outcomes)
            && |queue| <= count + |first| && bytes <= size + TotalCost(cost, first)
            && (Roomy(budget, count, size, |ops|, TotalCost(cost, ops)) ==> NoneRefused(first, outcomes))
            && OthersRefused(first, outcomes)
            && (was !! held ==>
                  a !! Held(queue) && Prompt(u, was, held, first).0 <= a && Held(queue) <= Prompt(u, was, held, first).1)
  {
    hide Held, Taken, TotalCost, Roomy, NoneRefused, OthersRefused, Prompt;
  }

  lemma {:induction false} OfferingIs(u: set<Operation>, budget: Budget, cost: Operation -> nat, ops: seq<Operation>, was: set<Operation>,
                                      held: set<Operation>, count: nat, size: nat, outcomes: seq<Outcome>, a: set<Operation>,
                                      queue: seq<Operation>, bytes: nat)
    requires |outcomes| <= |ops|
    requires var first := ops[..|outcomes|];
             && a + Held(queue) == was + held + Taken(first, outcomes)
             && |queue| <= count + |first| && bytes <= size + TotalCost(cost, first)
             && (Roomy(budget, count, size, |ops|, TotalCost(cost, ops)) ==> NoneRefused(first, outcomes))
             && OthersRefused(first, outcomes)
             && (was !! held ==>
                   a !! Held(queue) && Prompt(u, was, held, first).0 <= a && Held(queue) <= Prompt(u, was, held, first).1)
    ensures Offering(u, budget, cost, ops, was, held, count, size, outcomes, a, queue, bytes)
  {
    hide Held, Taken, TotalCost, Roomy, NoneRefused, OthersRefused, Prompt;
  }

  lemma {:induction false} OfferingEnds(u: set<Operation>, budget: Budget, cost: Operation -> nat, ops: seq<Operation>, was: set<Operation>,
                                        held: set<Operation>, count: nat, size: nat, outcomes: seq<Outcome>, a: set<Operation>,
                                        queue: seq<Operation>, bytes: nat)
    requires |outcomes| == |ops| && Offering(u, budget, cost, ops, was, held, count, size, outcomes, a, queue, bytes)
    ensures a + Held(queue) == was + held + Taken(ops, outcomes) && OthersRefused(ops, outcomes)
    ensures Roomy(budget, count, size, |ops|, TotalCost(cost, ops)) ==> NoneRefused(ops, outcomes)
    ensures was !! held ==> Prompt(u, was, held, ops).0 <= a
  {
    hide Held, Taken, TotalCost, Roomy, NoneRefused, OthersRefused, Prompt;
    assert ops[..|ops|] == ops;
  }

  /** What is taken of an offer is what is applied or waiting after it. */
  lemma {:induction false} TakenNow(u: set<Operation>, a: set<Operation>, queue: seq<Operation>, full: bool, o: Operation, out: Outcome)
    requires Accepted(o) ==> Answers(u, a, Held(queue), full, o, out)
    requires !Accepted(o) ==> out.Refused? || out.Duplicate?
    ensures a + Held(queue) + (if Takes(o, out) then {o} else {})
            == (a + (if out.Done? then {o} else {})) + (Held(queue) + (if out.Deferred? then {o} else {}))
  {
    hide Accepted, Held, Ready, Behind;
  }

  lemma {:induction false} NoneRefusedStep(u: set<Operation>, a: set<Operation>, queue: seq<Operation>, ops: seq<Operation>, outcomes: seq<Outcome>,
                                           out: Outcome)
    requires |outcomes| < |ops| && NoneRefused(ops[..|outcomes|], outcomes)
    requires Accepted(ops[|outcomes|]) ==> Answers(u, a, Held(queue), false, ops[|outcomes|], out)
    ensures NoneRefused(ops[..|outcomes| + 1], outcomes + [out])
  {
    hide Accepted, Ready, Behind;
    assert forall j :: 0 <= j < |outcomes| ==> ops[..|outcomes| + 1][j] == ops[..|outcomes|][j];
  }

  lemma {:induction false} OthersRefusedStep(ops: seq<Operation>, outcomes: seq<Outcome>, out: Outcome)
    requires |outcomes| < |ops| && OthersRefused(ops[..|outcomes|], outcomes)
    requires !Accepted(ops[|outcomes|]) ==> out.Refused? || out.Duplicate?
    ensures OthersRefused(ops[..|outcomes| + 1], outcomes + [out])
  {
    hide Accepted;
    assert forall j :: 0 <= j < |outcomes| ==> ops[..|outcomes| + 1][j] == ops[..|outcomes|][j];
  }
}
