/** A replica: receiving operations, with causal gating, the deferral queue, its
    budget and per-actor blocking, and editing, undoing and redoing of its own.

    Over an honest history the replica never finds an operation malformed, its
    version vector is exact, and once a batch is done it has applied the greatest
    causally closed part of everything it holds. Every method ensures a step of
    the system of replicas in Networks, where convergence is proved. */
module Replicas {
  import opened Ids
  import opened VersionVectors
  import opened FugueOrder
  import opened Fragments
  import opened Histories
  import opened Indexes
  import opened Representation
  import opened RemoteEdits
  import opened VisibleText
  import opened LocalEdits
  import opened LocalOperations
  import opened VisibleEdits
  import opened FastEdits
  import opened UndoHistories
  import opened LocalUndo
  import opened EditGroups
  import opened Delivery
  import opened Batches
  import opened Networks
  import opened UndoRuns
  import opened UndoEffects

  class Replica {
    const actor: ActorId
    const budget: Budget
    /** The estimated size of an operation in memory. */
    const cost: Operation -> nat

    var frags: seq<Fragment>
    var index: RunIndex
    var undo: seq<UndoEntry>
    var version: Version
    /** The next counter to mint with; above every counter observed. */
    var next: nat

    var queue: seq<Operation>
    var blocked: set<ActorId>
    var bytes: nat

    /** What this replica can undo and redo of its own changes. */
    const history: UndoHistory

    /** The operations this replica has applied. */
    ghost var applied: set<Operation>

    ghost predicate Current(u: set<Operation>)
      reads this
    {
      IsCurrent(u, applied, frags, index, undo, version, next)
    }

    ghost predicate QueueKept(u: set<Operation>)
      reads this
    {
      && Held(queue) <= u && InOrder(queue)
      && blocked == Actors(queue) && bytes == TotalCost(cost, queue)
      && |queue| <= budget.operations && bytes <= budget.bytes
    }

    /** Nothing in the queue could be applied. */
    ghost predicate Settled(u: set<Operation>)
      reads this
    {
      forall o :: o in queue ==> !Ready(u, applied, o)
    }

    /** The replica mints under its own actor and has applied what it minted. */
    ghost predicate Owns(u: set<Operation>)
      reads this
    {
      ValidActor(actor) && next > 0 && OwnApplied(u, applied, actor)
    }

    /** Every group of the history names applied operations of this actor in whole. */
    ghost predicate Groups()
      reads this, history
    {
      && history.Valid() && history.maxBytes <= SIZE_MAX / 2
      && NamesApart(history.stack) && history.cursor <= |history.stack|
      && forall g :: g in history.stack ==> GroupKnown(applied, g) && g.id.actor == actor
    }

    /** Every group records an edit of this actor: those that can be undone are in
        force, those that can be redone are withdrawn. */
    ghost predicate Remembers()
      reads this, history
    {
      Groups() && AllAct(applied, actor, undo, history.stack, history.cursor)
    }

    constructor (actor: ActorId, budget: Budget, cost: Operation -> nat)
      requires ValidActor(actor)
      ensures this.actor == actor && applied == {} && queue == [] && frags == [] && Owns({})
      ensures Current({}) && QueueKept({}) && Settled({}) && Remembers() && fresh(history)
      ensures Networks.Kept({}, AsPeer())
    {
      this.actor, this.budget, this.cost := actor, budget, cost;
      history := new UndoHistory();
      frags, undo, version, next := [], [], map[], 1;
      index := RunIndex(map[], map[], map[], 1, true);
      queue, blocked, bytes, applied := [], {}, 0, {};
      new;
      EmptyIsCurrent();
    }

    lemma EmptyIsCurrent()
      requires frags == [] && undo == [] && version == map[] && applied == {}
      requires index == RunIndex(map[], map[], map[], 1, true)
      ensures Current({})
    {
      assert RunsOf(frags, index.origins) == [];
      assert Supplied({}) == {};
    }

    /** Try an operation now. Over an honest history it is applied if its
        dependencies are and left alone otherwise; it is never malformed. */
    method TryApply(ghost u: set<Operation>, o: Operation) returns (step: Step)
      requires Current(u) && o in u
      modifies `frags, `index, `undo, `version, `next, `applied
      ensures Current(u)
      ensures step == if Ready(u, old(applied), o) then Applied else NotReady
      ensures applied == if step == Applied then old(applied) + {o} else old(applied)
      ensures next >= old(next)
    {
      hide IsCurrent, Ready;
      Gate(u, applied, frags, index, undo, version, next, o);
      if Observed(version, o.timestamp) { return Applied; }
      if !Covers(version, o.version) { return NotReady; }
      var ok, f, i, e, v, n := ApplyReady(u, applied, frags, index, undo, version, next, o);
      if !ok { return Malformed; }
      frags, index, undo, version, next, applied := f, i, e, v, n, applied + {o};
      return Applied;
    }

    /** Park an operation, or refuse it when there is no room. */
    method Defer(ghost u: set<Operation>, o: Operation, awaiting: Identity) returns (out: Outcome)
      requires QueueKept(u) && o in u
      modifies `queue, `blocked, `bytes
      ensures QueueKept(u)
      ensures out == if Exhausted(budget, |old(queue)|, old(bytes), cost(o)) then Refused else Deferred(awaiting)
      ensures out.Refused? ==> queue == old(queue) && blocked == old(blocked) && bytes == old(bytes)
      ensures out.Deferred? ==> Held(queue) == Held(old(queue)) + {o}
      ensures |queue| == |old(queue)| + (if out.Deferred? then 1 else 0) && bytes == old(bytes) + if out.Deferred? then cost(o) else 0
    {
      if Exhausted(budget, |queue|, bytes, cost(o)) { return Refused; }
      queue := Enqueue(cost, queue, o);
      blocked := blocked + {o.timestamp.actor};
      bytes := bytes + cost(o);
      return Deferred(awaiting);
    }

    /** The smallest counter of the actor's waiting operations. */
    method EarliestPending(a: ActorId) returns (c: Option<nat>)
      ensures c.Some? ==> exists o :: o in queue && o.timestamp == Identity(a, c.value)
      ensures forall o :: o in queue && o.timestamp.actor == a ==> c.Some? && c.value <= o.timestamp.counter
    {
      c := None;
      for i := 0 to |queue|
        invariant c.Some? ==> exists o :: o in queue && o.timestamp == Identity(a, c.value)
        invariant forall j :: 0 <= j < i && queue[j].timestamp.actor == a ==> c.Some? && c.value <= queue[j].timestamp.counter
      {
        var t := queue[i].timestamp;
        if t.actor == a && (c.None? || t.counter < c.value) {
          assert queue[i] in queue;
          c := Some(t.counter);
        }
      }
    }

    /** One offered operation: refused when malformed, a no-op when known, held
        back behind its actor's waiting operations, parked when something it
        depends on is missing, applied otherwise. */
    method ApplyOne(ghost u: set<Operation>, o: Operation) returns (out: Outcome)
      requires Current(u) && QueueKept(u) && (Accepted(o) ==> o in u)
      modifies this
      ensures Current(u) && QueueKept(u)
      ensures !Accepted(o) ==> out == (if Usable(o.timestamp) && Observed(old(version), o.timestamp) then Duplicate else Refused)
      ensures Accepted(o) ==> Answers(u, old(applied), old(Held(queue)), Exhausted(budget, |old(queue)|, old(bytes), cost(o)), o, out)
      ensures out.Deferred? ==> Awaits(old(version), o, out.awaiting)
      ensures applied == if out.Done? then old(applied) + {o} else old(applied)
      ensures Held(queue) == if out.Deferred? then Held(old(queue)) + {o} else Held(old(queue))
      ensures |queue| == |old(queue)| + (if out.Deferred? then 1 else 0) && bytes == old(bytes) + if out.Deferred? then cost(o) else 0
      ensures next >= old(next)
    {
      hide IsCurrent, Accepted, Ready, Covers, Observed, Exhausted, Held, InOrder, Actors, TotalCost, Behind;
      if Accepted(o) {
        Gate(u, applied, frags, index, undo, version, next, o);
        AcceptedIsUsable(o);
      }
      if !Usable(o.timestamp) { return Refused; }
      if Observed(version, o.timestamp) { return Duplicate; }
      if !Accepted(o) { return Refused; }
      var missing := FirstUnmet(o.version);
      if missing.Some? {
        out := Defer(u, o, missing.value);
        return;
      }
      if o.timestamp.actor in blocked {
        var earliest := EarliestPending(o.timestamp.actor);
        EarliestDecides(queue, o, earliest);
        if earliest.Some? && earliest.value <= o.timestamp.counter {
          out := Defer(u, o, Identity(o.timestamp.actor, o.timestamp.counter - 1));
          return;
        }
      }
      NotBlocked(queue, o);
      var step := TryApply(u, o);
      return Done;
    }

    /** A dependency that has not been observed, if there is one. */
    method FirstUnmet(required: Version) returns (missing: Option<Identity>)
      ensures missing.None? <==> Covers(version, required)
      ensures missing.Some? ==> !Observed(version, missing.value) && Observed(required, missing.value)
    {
      var left := required.Keys;
      while left != {}
        invariant left <= required.Keys
        invariant forall a :: a in required && a !in left ==> Get(version, a) >= required[a]
        decreases |left|
      {
        var a :| a in left;
        if Get(version, a) < required[a] { return Some(Identity(a, required[a])); }
        left := left - {a};
      }
      return None;
    }

    lemma StayBlocked(u: set<Operation>, before: set<Operation>, queue: seq<Operation>, remaining: seq<Operation>, i: nat)
      requires Current(u)
      requires i < |queue| && Passing(u, before, applied, queue, remaining, i) && queue[i].timestamp.actor in Actors(remaining)
      ensures |remaining| == i ==> !Ready(u, applied, queue[i])
    {
      PassBlocked(u, before, applied, queue, remaining, i);
    }

    /** Offer every waiting operation once, in timestamp order; operations of an
        actor with one still waiting stay behind it. */
    method RetryPass(ghost u: set<Operation>) returns (progress: bool)
      requires Current(u) && QueueKept(u)
      modifies `frags, `index, `undo, `version, `next, `applied, `queue, `blocked, `bytes
      ensures Current(u) && QueueKept(u)
      ensures applied + Held(queue) == old(applied) + Held(old(queue))
      ensures if progress then |queue| < |old(queue)| else Settled(u)
      ensures next >= old(next)
    {
      hide IsCurrent, Ready, Passing, InOrder, TotalCost, Held;
      progress, blocked := false, {};
      var remaining, size := [], 0;
      ghost var before := applied;
      PassStarts(u, applied, queue);
      NoCost(cost, queue);
      for i := 0 to |queue|
        invariant queue == old(queue) && Current(u) && next >= old(next)
        invariant Passing(u, before, applied, queue, remaining, i)
        invariant |remaining| <= i && (progress <==> |remaining| < i)
        invariant blocked == Actors(remaining) && size == TotalCost(cost, remaining) <= TotalCost(cost, queue[..i])
      {
        var o := queue[i];
        CostOfPrefix(cost, queue, i);
        var stays := o.timestamp.actor in blocked;
        if stays {
          StayBlocked(u, before, queue, remaining, i);
        } else {
          PassApplied(u, before, applied, queue, remaining, i);
          var step := TryApply(u, o);
          stays := step == NotReady;
        }
        if stays {
          PassKept(u, before, applied, queue, remaining, i, cost);
          blocked := blocked + {o.timestamp.actor};
          size := size + cost(o);
          remaining := remaining + [o];
        } else {
          progress := true;
        }
      }
      PassEnds(u, before, applied, queue, remaining);
      assert queue[..|queue|] == queue;
      queue, bytes := remaining, size;
    }

    lemma HoldsGreatest(u: set<Operation>)
      requires Current(u) && Settled(u)
      ensures IsGreatestClosed(u, applied + Held(queue), applied)
    {
      SettledIsGreatest(u, applied, Held(queue));
    }

    /** Retry until a whole pass applies nothing. Every other pass shortens the
        queue. */
    method RetryDeferred(ghost u: set<Operation>)
      requires Current(u) && QueueKept(u)
      modifies `frags, `index, `undo, `version, `next, `applied, `queue, `blocked, `bytes
      ensures Current(u) && QueueKept(u) && Settled(u)
      ensures applied + Held(queue) == old(applied) + Held(old(queue)) && next >= old(next)
    {
      hide IsCurrent;
      var progress := true;
      while progress
        invariant Current(u) && QueueKept(u) && (progress || Settled(u))
        invariant applied + Held(queue) == old(applied) + Held(old(queue)) && next >= old(next)
        decreases if progress then |queue| + 1 else 0
      {
        progress := RetryPass(u);
      }
    }

    /** This replica among others. */
    ghost function AsPeer(): Peer
      reads this
    {
      Peer(actor, frags, index, undo, version, next, applied, Held(queue))
    }

    ghost function AsStanding(): Standing
      reads this
    {
      Standing(applied, Held(queue), |queue|, bytes)
    }

    /** Offer a batch. Afterwards the replica has applied the greatest causally
        closed part of what it had, what was waiting and what it did not refuse.
        It refuses malformed operations, and others only when its budget could not
        hold back the whole batch. Whatever the budget, it applies what comes when
        it is ready. */
    method ApplyOps(ghost u: set<Operation>, ops: seq<Operation>) returns (outcomes: seq<Outcome>)
      requires Current(u) && QueueKept(u)
      requires forall o :: o in ops && Accepted(o) ==> o in u
      modifies this
      ensures Current(u) && QueueKept(u) && Settled(u)
      ensures |outcomes| == |ops| && Answered(u, budget, cost, old(AsStanding()), ops, outcomes)
      ensures old(Settled(u)) ==> Prompt(u, old(applied), old(Held(queue)), ops).0 <= applied
      ensures applied + Held(queue) == old(applied) + Held(old(queue)) + Taken(ops, outcomes)
      ensures IsGreatestClosed(u, old(applied) + Held(old(queue)) + Taken(ops, outcomes), applied)
      ensures (Roomy(budget, |old(queue)|, old(bytes), |ops|, TotalCost(cost, ops)) ==>
                 && NoneRefused(ops, outcomes)
                 && IsGreatestClosed(u, old(applied) + Held(old(queue)) + AcceptedOf(ops), applied)
                 && Delivers(u, old(AsPeer()), AcceptedOf(ops), AsPeer()))
      ensures OthersRefused(ops, outcomes)
      ensures old(applied) <= applied && (old(Owns(u)) ==> Owns(u)) && (old(Owns(u) && Remembers()) ==> Remembers())
    {
      hide IsCurrent, Ready, IsGreatestClosed, GroupKnown, TotalCost, Roomy, Accepted, AcceptedOf, Taken, Delivers, Held, OwnApplied, Actors,
        InOrder, Prompt, Offering, NoneRefused, OthersRefused, Answered;
      ghost var was, counts, peer := applied, undo, AsPeer();
      ghost var owned, remembered := Owns(u), Remembers();
      ghost var held, count, size := Held(queue), |queue|, bytes;
      CurrentTold(u, applied, frags, index, undo, version, next);
      AppliedInside(u, applied, frags, index, undo, version, next);
      if Settled(u) { SettledIsUnapplied(u, was, queue); }
      outcomes := OfferAll(u, ops);
      OfferingEnds(u, budget, cost, ops, was, held, count, size, outcomes, applied, queue, bytes);
      ghost var now := applied;
      AppliedInside(u, applied, frags, index, undo, version, next);
      RetryDeferred(u);
      HoldsGreatest(u);
      KeepsApplied(u, was, was + held + Taken(ops, outcomes), applied);
      KeepsApplied(u, now, was + held + Taken(ops, outcomes), applied);
      if owned { OwnsStill(u, was, applied, actor); }
      if owned && remembered { StillRemembers(u, was, counts); }
      if Roomy(budget, count, size, |ops|, TotalCost(cost, ops)) {
        AllTaken(ops, outcomes);
        HeldIs(queue);
        BatchDelivered(u, peer, AcceptedOf(ops), AsPeer());
      }
    }

    /** Offer one operation after the other. */
    method OfferAll(ghost u: set<Operation>, ops: seq<Operation>) returns (outcomes: seq<Outcome>)
      requires Current(u) && QueueKept(u)
      requires forall o :: o in ops && Accepted(o) ==> o in u
      modifies this
      ensures Current(u) && QueueKept(u) && |outcomes| == |ops| && next >= old(next)
      ensures Offering(u, budget, cost, ops, old(applied), old(Held(queue)), |old(queue)|, old(bytes), outcomes, applied, queue, bytes)
      ensures Answered(u, budget, cost, old(AsStanding()), ops, outcomes)
    {
      hide IsCurrent, Accepted, Exhausted, Held, Offering, Answers, Actors, InOrder, TotalCost, Answered, Offers;
      outcomes := [];
      ghost var was, held, count, size := applied, Held(queue), |queue|, bytes;
      ghost var start := AsStanding();
      NothingOffered(u, budget, cost, ops, applied, queue, bytes);
      NothingAnswered(u, budget, cost, start, ops);
      for i := 0 to |ops|
        invariant Current(u) && QueueKept(u) && |outcomes| == i && next >= old(next)
        invariant Offering(u, budget, cost, ops, was, held, count, size, outcomes, applied, queue, bytes)
        invariant Answered(u, budget, cost, start, ops, outcomes) && AsStanding() == Offers(u, budget, cost, start, ops[..i])
      {
        ghost var a, waiting, stored, now := applied, queue, bytes, AsStanding();
        AppliedInside(u, applied, frags, index, undo, version, next);
        var out := ApplyOne(u, ops[i]);
        OneOffered(u, budget, cost, ops, was, held, count, size, outcomes, a, waiting, stored, out, queue, bytes);
        OneAnswered(u, budget, cost, start, ops, outcomes, now, out, AsStanding());
        outcomes := outcomes + [out];
        assert applied == a + (if out.Done? then {ops[i]} else {});
      }
    }

    /** What was remembered still is once more operations are applied. */
    lemma StillKnown(u: set<Operation>, a: set<Operation>)
      requires Current(u) && a <= applied && history.Valid() && history.maxBytes <= SIZE_MAX / 2
      requires NamesApart(history.stack) && history.cursor <= |history.stack|
      requires forall g :: g in history.stack ==> GroupKnown(a, g) && g.id.actor == actor
      ensures Groups()
    {
      forall g | g in history.stack
        ensures GroupKnown(applied, g)
      {
        KnownStays(u, a, applied, g);
      }
    }

    lemma StillRemembers(u: set<Operation>, a: set<Operation>, counts: seq<UndoEntry>)
      requires Current(u) && a <= applied && history.Valid() && history.maxBytes <= SIZE_MAX / 2
      requires NamesApart(history.stack) && history.cursor <= |history.stack|
      requires forall g :: g in history.stack ==> GroupKnown(a, g) && g.id.actor == actor
      requires OwnApplied(u, a, actor) && UndoTold(a, counts) && AllAct(a, actor, counts, history.stack, history.cursor)
      ensures Remembers()
    {
      StillKnown(u, a);
      CurrentTold(u, applied, frags, index, undo, version, next);
      AppliedInside(u, applied, frags, index, undo, version, next);
      hide IsCurrent, GroupKnown, AllAct, UndoTold, OwnApplied, SameFor, Honest, Closed;
      OthersCountOthers(u, a, applied, counts, undo, actor);
      AllActStill(u, a, applied, actor, counts, undo, history.stack, history.cursor);
    }

    /** Replace ranges of the visible text, if they are in range, in order and apart,
        and the undo budgets have room for the edit; otherwise change nothing. The
        replica has then applied the operation this emits; its document is what the
        operation makes of it anywhere, its visible text is the edited text, and the
        edit is the next to be undone. */
    method EditText(ghost u: set<Operation>, ranges: seq<Range>, news: seq<seq<Scalar>>) returns (o: Option<Operation>, ghost g: Group)
      requires Current(u) && QueueKept(u) && Owns(u) && Remembers()
      modifies `frags, `index, `version, `next, `applied, history
      ensures o.None? ==> unchanged(this) && unchanged(history)
      ensures o.Some? <==> |ranges| == |news| && InSequence(ranges, |old(Text(Items(frags)))|) && old(Affordable(ranges, news))
      ensures o.Some? ==> Mints(u, old(AsPeer()), o.value, AsPeer()) && o.value !in u && Honest(u + {o.value})
      ensures o.Some? ==> o.value.Edit? && (Accepted(o.value) <==>
                |ranges| <= MAX_PARTS && FullTexts(news) <= MAX_PARTS && |o.value.deletions| <= MAX_PARTS)
      ensures o.Some? ==> Packed(old(frags), ranges, o.value) && |o.value.deletions| <= Removed(ranges)
      ensures o.Some? && |ranges| == 1 ==>
                StagedRunCount(old(frags), ranges[0]) <= |o.value.deletions| <= FlatRunCount(Items(old(frags)), ranges)
      ensures o.Some? ==> Current(u + {o.value}) && QueueKept(u + {o.value}) && Owns(u + {o.value}) && Remembers()
      ensures o.Some? ==> applied == old(applied) + {o.value}
      ensures o.Some? ==> IsEdit(old(Items(frags)), ranges, news, actor, old(next), o.value, Items(frags))
      ensures o.Some? ==> Text(Items(frags)) == Edited(old(Text(Items(frags))), ranges, news)
      ensures o.Some? ==> Records(g, o.value) && Some(g.retained) == RetainedBytes(old(Text(Items(frags))), ranges, news)
      ensures o.Some? ==>
                && old(history.cursor) <= |old(history.stack)| && history.cursor == |history.stack|
                && history.maxDepth == old(history.maxDepth) && history.maxBytes == old(history.maxBytes)
                && var all := old(history.stack)[..old(history.cursor)] + [g];
                   var n := Excess(all, history.maxDepth, history.maxBytes);
                   && history.stack == all[n..]
                   && history.retired == old(history.retired) + old(history.stack)[old(history.cursor)..] + all[..n]
      ensures o.Some? && history.maxDepth > 0 ==> history.stack != [] && history.stack[|history.stack| - 1] == g
    {
      hide IsCurrent, Text, Edited, Items, RetainedBytes, TotalText, AnyDeleted, HasRoom, FullTexts, Removed, Accepted, Honest, Mints, Excess,
        Records, AllAct, GroupKnown, IsEdit;
      g := Group(Identity(0, 0), [], [], [], 0);
      var valid := ValidateEdit(ranges, news, |Text(Items(frags))|);
      if !valid { return None, g; }
      var retained, shape := CheckEdit(ranges, news);
      if retained.None? { return None, g; }
      var made;
      made, g := Perform(u, ranges, news, retained.value, shape);
      o := Some(made);
    }

    /** What undoing the edit would retain is in range and can be committed. */
    ghost predicate Affordable(ranges: seq<Range>, news: seq<seq<Scalar>>)
      requires history.cursor <= |history.stack|
      reads this, history
    {
      && |ranges| == |news| && InSequence(ranges, |Text(Items(frags))|)
      && var retained := RetainedBytes(Text(Items(frags)), ranges, news);
         retained.Some? && HasRoom(ShapeOf(retained.value, TotalText(news), if AnyDeleted(ranges) then 1 else 0))
    }

    /** There is room to commit a group of these sizes. */
    ghost predicate HasRoom(g: Group)
      requires history.cursor <= |history.stack|
      reads history
    {
      var all := Candidates(history.stack, history.cursor, g);
      var n := Excess(all, history.maxDepth, history.maxBytes);
      && g.retained <= history.maxBytes && Retained(history.stack[..history.cursor]) + g.retained <= SIZE_MAX
      && Fits(all[n..], history.retired + history.stack[history.cursor..] + all[..n])
    }

    /** An edit is affordable if it retains no more than the history may, and all groups
        there are could be pending at once. */
    lemma RoomForEdit(ranges: seq<Range>, news: seq<seq<Scalar>>)
      requires history.Valid() && history.maxBytes <= SIZE_MAX / 2 && history.cursor <= |history.stack|
      requires |ranges| == |news| && InSequence(ranges, |Text(Items(frags))|)
      requires var retained := RetainedBytes(Text(Items(frags)), ranges, news); retained.Some? && retained.value <= history.maxBytes
      requires |history.stack| + |history.retired| + 1 <= MAX_GROUPS
      requires Charges(history.stack) + Charges(history.retired) + ChargeFor(1, TotalText(news), if AnyDeleted(ranges) then 1 else 0)
               <= MAX_PENDING_BYTES
      ensures Affordable(ranges, news)
    {
      var retained := RetainedBytes(Text(Items(frags)), ranges, news).value;
      var g := ShapeOf(retained, TotalText(news), if AnyDeleted(ranges) then 1 else 0);
      ChargeIs(g);
      NoOverflow(history.stack, history.cursor, retained);
      RoomyFits(history.stack, history.cursor, g, history.maxDepth, history.maxBytes, history.retired);
    }

    /** What the edit would retain, if its group can be committed. */
    method CheckEdit(ranges: seq<Range>, news: seq<seq<Scalar>>) returns (retained: Option<nat>, ghost shape: Group)
      requires history.Valid() && history.maxBytes <= SIZE_MAX / 2
      requires |ranges| == |news| && InSequence(ranges, |Text(Items(frags))|)
      ensures retained.Some? <==> Affordable(ranges, news)
      ensures retained.Some? ==>
                (forall i :: 0 <= i < |ranges| ==> ranges[i].start <= ranges[i].end <= |Text(Items(frags))|)
                && retained == RetainedBytes(Text(Items(frags)), ranges, news)
      ensures retained.Some? ==> shape.retained == retained.value && HasRoom(shape)
      ensures retained.Some? ==> |shape.operations| == 1 && |shape.inserted| == TotalText(news)
                                 && |shape.deletions| == if AnyDeleted(ranges) then 1 else 0
    {
      shape := Group(Identity(0, 0), [], [], [], 0);
      RangesInside(ranges, |Text(Items(frags))|);
      retained := RetainedBytes(Text(Items(frags)), ranges, news);
      hide RetainedBytes, Text, Items, InSequence, TotalText, AnyDeleted, Charges, Retained, Excess, Fits;
      if retained.None? || retained.value > history.maxBytes { return None, shape; }
      var deletions := if AnyDeleted(ranges) then 1 else 0;
      shape := ShapeOf(retained.value, TotalText(news), deletions);
      NoOverflow(history.stack, history.cursor, retained.value);
      var ok := history.CheckNewEntry(retained.value, TotalText(news), deletions, shape);
      if !ok { return None, shape; }
    }

    method Perform(ghost u: set<Operation>, ranges: seq<Range>, news: seq<seq<Scalar>>, retained: nat, ghost shape: Group)
      returns (o: Operation, ghost g: Group)
      requires Current(u) && QueueKept(u) && Owns(u) && Remembers()
      requires |ranges| == |news| && InSequence(ranges, |Text(Items(frags))|)
      requires shape.retained == retained && HasRoom(shape) && |shape.operations| == 1 && |shape.inserted| == TotalText(news)
      requires |shape.deletions| == if AnyDeleted(ranges) then 1 else 0
      modifies `frags, `index, `version, `next, `applied, history
      ensures Mints(u, old(AsPeer()), o, AsPeer()) && o !in u && Honest(u + {o})
      ensures o.Edit? && (Accepted(o) <==> |ranges| <= MAX_PARTS && FullTexts(news) <= MAX_PARTS && |o.deletions| <= MAX_PARTS)
      ensures Packed(old(frags), ranges, o) && |o.deletions| <= Removed(ranges)
      ensures |ranges| == 1 ==>
                StagedRunCount(old(frags), ranges[0]) <= |o.deletions| <= FlatRunCount(Items(old(frags)), ranges)
      ensures Current(u + {o}) && QueueKept(u + {o}) && Owns(u + {o}) && Remembers()
      ensures applied == old(applied) + {o}
      ensures IsEdit(old(Items(frags)), ranges, news, actor, old(next), o, Items(frags))
      ensures Text(Items(frags)) == Edited(old(Text(Items(frags))), ranges, news)
      ensures Records(g, o) && g.retained == retained && Committed(old(history.stack), old(history.cursor), old(history.retired), g)
      ensures history.maxDepth == old(history.maxDepth) && history.maxBytes == old(history.maxBytes)
      ensures history.maxDepth > 0 ==> history.stack != [] && history.stack[|history.stack| - 1] == g
    {
      hide IsCurrent, MintedFrom, InSequence, Text, Edited, Honest, Accepted, WithinLimits, IsEdit, GroupKnown, Charges, Retained, Excess,
        TotalText, AnyDeleted, Fits, Items, HasRoom, Packed, StagedRunCount, FlatRunCount, Removed, FullTexts, Mints, AllAct, Acts, Records,
        Committed, OwnApplied;
      var made, f, i, v, n := EditVisible(u, applied, actor, frags, index, undo, version, next, ranges, news);
      EmittedFacts(u, applied, frags, index, undo, version, next, made);
      NextPositive(u + {made}, applied + {made}, f, i, undo, v, n, actor, made);
      GroupSizes(u, applied, version, Items(frags), ranges, news, actor, next, made, Items(f), retained);
      EditIsSmall(Items(frags), ranges, news, actor, next, made, Items(f));
      if |ranges| == 1 { OneRangeCounts(u, applied, frags, index, undo, version, next, ranges, made); }
      ghost var was, peer := applied, AsPeer();
      NewGroup(u, was, frags, index, undo, version, next, actor, made, retained, history.stack, history.cursor);
      frags, index, version, next, applied := f, i, v, n, applied + {made};
      MintsIs(u, peer, made, AsPeer());
      Remember(GroupOf(made, retained), shape);
      o, g := made, GroupOf(made, retained);
    }

    /** The history after a commit: what could be redone is retired, and from the
        oldest on as many groups as are too many. */
    ghost predicate Committed(stack: seq<Group>, cursor: nat, retired: seq<Group>, g: Group)
      reads history
    {
      && cursor <= |stack| && history.cursor == |history.stack|
      && var all := stack[..cursor] + [g];
         var n := Excess(all, history.maxDepth, history.maxBytes);
         && history.stack == all[n..]
         && history.retired == retired + stack[cursor..] + all[..n]
    }

    /** Commit a group of the sizes there is room for. */
    method Remember(g: Group, ghost shape: Group)
      requires history.Valid() && history.maxBytes <= SIZE_MAX / 2 && HasRoom(shape)
      requires g.retained == shape.retained && |g.operations| == |shape.operations|
      requires |g.inserted| == |shape.inserted| && |g.deletions| == |shape.deletions|
      requires forall h :: h in Candidates(history.stack, history.cursor, g) ==> GroupKnown(applied, h) && h.id.actor == actor
      requires NamesApart(Candidates(history.stack, history.cursor, g))
      requires AllAct(applied, actor, undo, history.stack, history.cursor) && Acts(applied, actor, undo, g, true)
      modifies history
      ensures Remembers() && Committed(old(history.stack), old(history.cursor), old(history.retired), g)
      ensures history.maxDepth == old(history.maxDepth) && history.maxBytes == old(history.maxBytes)
      ensures history.maxDepth > 0 ==> history.stack != [] && history.stack[|history.stack| - 1] == g
    {
      hide GroupKnown, Charges, Retained, Excess, Charge, AllAct, Acts;
      SameShape(history.stack, history.cursor, shape, g, history.maxDepth, history.maxBytes, history.retired);
      ghost var all := Candidates(history.stack, history.cursor, g);
      TailKnown(applied, actor, all, Excess(all, history.maxDepth, history.maxBytes));
      CommitActs(applied, actor, undo, history.stack, history.cursor, g, Excess(all, history.maxDepth, history.maxBytes));
      history.Commit(g);
    }

    /** Stack, counts and document, as undoing and redoing change them. */
    ghost function AsTurn(): Turn
      reads this, history
    {
      Turn(history.stack, history.cursor, undo, Items(frags))
    }

    /** A replica's document always shows what its undo counts say. */
    lemma TurnShowsCounts(u: set<Operation>)
      requires Current(u)
      ensures ShowsCounts(AsTurn())
    {
      DocumentShows(u, applied, frags, index, undo, version, next);
    }

    /** Undo the latest active group, if there is one; the stack stays as it is. */
    method Undo(ghost u: set<Operation>) returns (o: Option<Operation>)
      requires Current(u) && QueueKept(u) && Owns(u) && Remembers()
      modifies `frags, `undo, `version, `next, `applied, history`stack, history`cursor
      ensures o.None? ==> unchanged(this) && unchanged(history)
      ensures o.None? <==> old(history.cursor) == 0
      ensures o.Some? ==> GroupUndone(u, old(AsPeer()), o.value)
      ensures o.Some? ==> history.stack == old(history.stack) && history.cursor + 1 == old(history.cursor)
    {
      if history.cursor == 0 { return None; }
      NamedApart();
      var made := UndoLatest(u);
      o := Some(made);
    }

    method UndoLatest(ghost u: set<Operation>) returns (o: Operation)
      requires Current(u) && QueueKept(u) && Owns(u) && Remembers() && 0 < history.cursor <= |history.stack|
      modifies `frags, `undo, `version, `next, `applied, history`stack, history`cursor
      ensures GroupUndone(u, old(AsPeer()), o) && history.stack == old(history.stack) && history.cursor == old(history.cursor) - 1
    {
      NamedApart();
      ghost var before, c := history.stack, history.cursor;
      hide NamedUndone, NamesApart, Remembers, IsCurrent;
      var latest := history.stack[history.cursor - 1];
      var made := UndoGroup(u, latest.id);
      assert before[c - 1] == latest;
      NamedLatestStays(before, c, history.stack);
      o := made.value;
    }

    /** Redo the next undone group, if there is one; the stack stays as it is. */
    method Redo(ghost u: set<Operation>) returns (o: Option<Operation>)
      requires Current(u) && QueueKept(u) && Owns(u) && Remembers()
      modifies `frags, `undo, `version, `next, `applied, history`stack, history`cursor
      ensures o.None? ==> unchanged(this) && unchanged(history)
      ensures o.None? <==> old(history.cursor) == |old(history.stack)|
      ensures o.Some? ==> GroupRedone(u, old(AsPeer()), o.value)
      ensures o.Some? ==> history.stack == old(history.stack) && history.cursor == old(history.cursor) + 1
    {
      if history.cursor >= |history.stack| { return None; }
      ghost var before, c := history.stack, history.cursor;
      hide IsCurrent, NamedRedone, NamesApart;
      o := RedoGroup(u, history.stack[history.cursor].id);
      NamedNextStays(before, c, history.stack);
    }

    /** Undo one active group. */
    method UndoGroup(ghost u: set<Operation>, id: Identity) returns (o: Option<Operation>)
      requires Current(u) && QueueKept(u) && Owns(u) && Remembers()
      modifies `frags, `undo, `version, `next, `applied, history`stack, history`cursor
      ensures o.None? ==> unchanged(this) && unchanged(history)
      ensures o.None? <==> forall j :: 0 <= j < old(history.cursor) && j < |old(history.stack)| ==> old(history.stack)[j].id != id
      ensures o.Some? ==> GroupUndone(u, old(AsPeer()), o.value) && history.cursor == old(history.cursor) - 1
      ensures o.Some? ==> NamedUndone(old(history.stack), old(history.cursor), id, history.stack)
    {
      hide IsCurrent, Honest, GroupKnown, Accepted, WithinLimits, MintedFrom, Raised, Retained, Charges, AllAct, Represents, UndoTold, Undid,
        Items, ShowAll;
      ghost var before, was := history.stack, AsPeer();
      var g, i := history.UndoOf(id);
      if g.None? { return None; }
      UndoingKeeps(before, old(history.cursor), i);
      MovedApart(before, old(history.cursor), i);
      SameGroups(before, history.stack);
      CurrentTold(u, applied, frags, index, undo, version, next);
      AppliedInside(u, applied, frags, index, undo, version, next);
      var made := Emit(u, g.value);
      UndoneGroup(u, was.applied, actor, Items(was.frags), was.undo, undo, before, old(history.cursor), i);
      AllActLater(u + {made}, was.applied, applied, actor, undo, history.stack, history.cursor);
      o := Some(made);
    }

    /** Redo one undone group. */
    method RedoGroup(ghost u: set<Operation>, id: Identity) returns (o: Option<Operation>)
      requires Current(u) && QueueKept(u) && Owns(u) && Remembers()
      modifies `frags, `undo, `version, `next, `applied, history`stack, history`cursor
      ensures o.None? ==> unchanged(this) && unchanged(history)
      ensures o.None? <==> forall j :: old(history.cursor) <= j < |old(history.stack)| ==> old(history.stack)[j].id != id
      ensures o.Some? ==> GroupRedone(u, old(AsPeer()), o.value) && history.cursor == old(history.cursor) + 1
      ensures o.Some? ==> NamedRedone(old(history.stack), old(history.cursor), id, history.stack)
    {
      hide IsCurrent, Honest, GroupKnown, Accepted, WithinLimits, MintedFrom, Raised, Retained, Charges, AllAct, Represents, UndoTold, Redid,
        Items, ShowAll;
      ghost var before, was := history.stack, AsPeer();
      var g, i := history.RedoOf(id);
      if g.None? { return None; }
      RedoingKeeps(before, old(history.cursor), i);
      MovedApart(before, old(history.cursor), i);
      SameGroups(before, history.stack);
      CurrentTold(u, applied, frags, index, undo, version, next);
      AppliedInside(u, applied, frags, index, undo, version, next);
      var made := Emit(u, g.value);
      RedoneGroup(u, was.applied, actor, Items(was.frags), was.undo, undo, before, old(history.cursor), i);
      AllActLater(u + {made}, was.applied, applied, actor, undo, history.stack, history.cursor);
      o := Some(made);
    }

    /** The group just past the cursor was undone: what its edit inserted is hidden,
        what only its edit deleted is shown. */
    ghost predicate GroupUndone(u: set<Operation>, was: Peer, o: Operation)
      reads this, history
    {
      && history.cursor < |history.stack| && Emitted(u, was, o, history.stack[history.cursor]) && Remembers()
      && Undid(was.applied, history.stack[history.cursor], was.undo, Items(was.frags), undo, Items(frags))
    }

    /** The group just before the cursor was redone: what its edit deleted is hidden,
        what it inserted is shown unless that was deleted. */
    ghost predicate GroupRedone(u: set<Operation>, was: Peer, o: Operation)
      reads this, history
    {
      && 0 < history.cursor <= |history.stack| && Emitted(u, was, o, history.stack[history.cursor - 1]) && Remembers()
      && Redid(was.applied, history.stack[history.cursor - 1], was.undo, Items(was.frags), undo, Items(frags))
    }

    lemma NamedApart()
      requires Remembers()
      ensures history.cursor <= |history.stack| && NamesApart(history.stack)
    {
    }

    /** An undo of the latest group is a step back, a redo of the next one a step forth. */
    lemma UndoneStepsBack(u: set<Operation>, was: Peer, o: Operation, s: Turn)
      requires GroupUndone(u, was, o) && s.undo == was.undo && s.items == Items(was.frags)
      requires s.stack == history.stack && s.cursor == history.cursor + 1
      ensures StepsBack(s, AsTurn())
    {
      hide IsCurrent, Undid, Raised, Mints, Items, ShowAll, AllAct, GroupKnown;
    }

    lemma RedoneStepsForth(u: set<Operation>, was: Peer, o: Operation, s: Turn)
      requires GroupRedone(u, was, o) && s.undo == was.undo && s.items == Items(was.frags)
      requires s.stack == history.stack && s.cursor == history.cursor - 1
      ensures StepsForth(s, AsTurn())
    {
      hide IsCurrent, Redid, Raised, Mints, Items, ShowAll, AllAct, GroupKnown;
    }

    /** The state after an undo or redo of a group: an operation every replica
        accepts if the group has no more targets than an operation may have parts,
        and refuses otherwise; each target counted up by one, shown accordingly. */
    ghost predicate Emitted(u: set<Operation>, was: Peer, o: Operation, g: Group)
      reads this, history
    {
      && Mints(u, was, o, AsPeer()) && o !in u && Honest(u + {o}) && (Accepted(o) <==> |TargetsOf(g)| <= MAX_PARTS)
      && Current(u + {o}) && QueueKept(u + {o}) && Owns(u + {o}) && Groups()
      && Raised(was.undo, undo, TargetsOf(g)) && Items(frags) == ShowAll(Items(was.frags), undo)
    }

    method Emit(ghost u: set<Operation>, g: Group) returns (o: Operation)
      requires Current(u) && QueueKept(u) && Owns(u) && Groups() && g in history.stack
      modifies `frags, `undo, `version, `next, `applied
      ensures Emitted(u, old(AsPeer()), o, g)
    {
      hide IsCurrent, Honest, GroupKnown, Accepted, WithinLimits, MintedFrom, Raised, Items, ShowAll;
      var made, f, e, v, n := EmitUndo(u, applied, actor, frags, index, undo, version, next, g);
      EmittedFacts(u, applied, frags, index, undo, version, next, made);
      NextPositive(u + {made}, applied + {made}, f, index, e, v, n, actor, made);
      ghost var was, peer := applied, AsPeer();
      frags, undo, version, next, applied := f, e, v, n, applied + {made};
      MintsIs(u, peer, made, AsPeer());
      StillKnown(u + {made}, was);
      o := made;
    }
  }

  /** A local edit's operation has a range for each range, a run for each non-empty new
      text and at most a deletion for each scalar taken out. */
  lemma {:induction false} EditIsSmall(items: seq<Item>, ranges: seq<Range>, news: seq<seq<Scalar>>, actor: ActorId, first: nat, o: Operation,
                                       after: seq<Item>)
    requires IsEdit(items, ranges, news, actor, first, o, after) && |ranges| == |news| && o.Edit?
    ensures o.timestamp.actor == actor
    ensures WithinLimits(o) <==> |ranges| <= MAX_PARTS && FullTexts(news) <= MAX_PARTS && |o.deletions| <= MAX_PARTS
    ensures |o.deletions| <= Removed(ranges)
  {
    EditIsBounded(items, ranges, news, actor, first, o, after);
    InsertedRuns(items, ranges, news, actor, first, o, after);
    hide Removed;
  }

  lemma {:induction false} OneRangeCounts(u: set<Operation>, a: set<Operation>, frags: seq<Fragment>, index: RunIndex, undo: seq<UndoEntry>,
                                          v: Version, next: nat, ranges: seq<Range>, o: Operation)
    requires IsCurrent(u, a, frags, index, undo, v, next) && o.Edit? && |ranges| == 1 && Packed(frags, ranges, o)
    ensures StagedRunCount(frags, ranges[0]) <= |o.deletions| <= FlatRunCount(Items(frags), ranges)
  {
    CurrentIsApart(u, a, frags, index, undo, v, next);
    hide IsCurrent, StagedRunCount, FlatRunCount;
    assert ranges == [ranges[0]];
    StagedIsTighter(frags, ranges[0]);
  }

  lemma {:induction false} CurrentIsApart(u: set<Operation>, a: set<Operation>, frags: seq<Fragment>, index: RunIndex, undo: seq<UndoEntry>,
                                          v: Version, next: nat)
    requires IsCurrent(u, a, frags, index, undo, v, next)
    ensures NonEmptyRuns(frags) && Apart(frags)
  {
    CurrentIsDistinct(u, a, frags, index, undo, v, next);
    hide Distinct;
    forall i, j | 0 <= i < j < |frags|
      ensures Separate(frags[i], frags[j])
    {
      RunsAreSeparate(frags, i, j);
    }
  }

  lemma {:induction false} MintsIs(u: set<Operation>, p: Peer, o: Operation, q: Peer)
    requires MintedFrom(u, p.applied, p.version, o) && o.timestamp.actor == p.actor && ValidActor(p.actor)
    requires IsCurrent(u + {o}, q.applied, q.frags, q.index, q.undo, q.version, q.next)
    requires OwnApplied(u + {o}, q.applied, q.actor) && q.next > 0
    requires q.actor == p.actor && q.applied == p.applied + {o} && q.waiting == p.waiting
    ensures Mints(u, p, o, q)
  {
    hide IsCurrent, MintedFrom, OwnApplied;
  }

  lemma {:induction false} DocumentShows(u: set<Operation>, a: set<Operation>, frags: seq<Fragment>, index: RunIndex, undo: seq<UndoEntry>,
                                         v: Version, next: nat)
    requires IsCurrent(u, a, frags, index, undo, v, next)
    ensures ShowAll(Items(frags), undo) == Items(frags)
  {
    assert Shown(Items(frags), undo);
    ShownIsFixed(Items(frags), undo);
  }

  /** A group of these sizes. */
  ghost function ShapeOf(retained: nat, inserted: nat, deletions: nat): (g: Group)
    ensures g.retained == retained && |g.operations| == 1 && |g.inserted| == inserted && |g.deletions| == deletions
  {
    var id := Identity(0, 0);
    Group(id, [id], seq(inserted, i => id), seq(deletions, i => id), retained)
  }

  /** One text for each range; the ranges are in the text, in order and apart. */
  method ValidateEdit(ranges: seq<Range>, news: seq<seq<Scalar>>, visible: nat) returns (ok: bool)
    ensures ok <==> |ranges| == |news| && InSequence(ranges, visible)
  {
    if |ranges| != |news| { return false; }
    for i := 0 to |ranges|
      invariant InSequence(ranges[..i], visible)
    {
      if ranges[i].start > ranges[i].end || ranges[i].end > visible { return false; }
      if i > 0 && (ranges[i].start < ranges[i - 1].start || ranges[i].start < ranges[i - 1].end) { return false; }
      assert forall j :: 0 <= j < i ==> ranges[..i][j] == ranges[j];
      assert i > 0 ==> forall j :: 0 <= j < i - 1 ==> ranges[..i][j].end <= ranges[..i][i - 1].start;
    }
    assert ranges[..|ranges|] == ranges;
    return true;
  }

  lemma {:induction false} AcceptedIsUsable(o: Operation)
    requires Accepted(o)
    ensures Usable(o.timestamp) && o.timestamp.counter > 0
  {
  }

  lemma {:induction false} EarliestDecides(queue: seq<Operation>, o: Operation, c: Option<nat>)
    requires c.Some? ==> exists p :: p in queue && p.timestamp == Identity(o.timestamp.actor, c.value)
    requires forall p :: p in queue && p.timestamp.actor == o.timestamp.actor ==> c.Some? && c.value <= p.timestamp.counter
    ensures Behind(Held(queue), o) <==> c.Some? && c.value <= o.timestamp.counter
  {
  }

  lemma {:induction false} NotBlocked(queue: seq<Operation>, o: Operation)
    ensures o.timestamp.actor !in Actors(queue) ==> !Behind(Held(queue), o)
  {
  }

  /** What is not ready was not applied. */
  lemma {:induction false} SettledIsUnapplied(u: set<Operation>, a: set<Operation>, queue: seq<Operation>)
    requires Closed(u, a) && forall o :: o in queue ==> !Ready(u, a, o)
    ensures a !! Held(queue)
  {
  }

  lemma {:induction false} CurrentTold(u: set<Operation>, a: set<Operation>, frags: seq<Fragment>, index: RunIndex, undo: seq<UndoEntry>,
                                       v: Version, next: nat)
    requires IsCurrent(u, a, frags, index, undo, v, next)
    ensures UndoTold(a, undo) && Represents(a, Items(frags), undo)
  {
  }

  lemma {:induction false} AppliedInside(u: set<Operation>, a: set<Operation>, frags: seq<Fragment>, index: RunIndex, undo: seq<UndoEntry>,
                                         v: Version, next: nat)
    requires IsCurrent(u, a, frags, index, undo, v, next)
    ensures Honest(u) && a <= u && Closed(u, a)
  {
  }

  lemma {:induction false} HeldIs(queue: seq<Operation>)
    ensures forall o :: o in Held(queue) <==> o in queue
  {
  }

  lemma {:induction false} NoCost(cost: Operation -> nat, ops: seq<Operation>)
    ensures ops[..0] == [] && TotalCost(cost, []) == 0
  {
  }

  lemma {:induction false} OwnsStill(u: set<Operation>, a: set<Operation>, b: set<Operation>, actor: ActorId)
    requires OwnApplied(u, a, actor) && a <= b
    ensures OwnApplied(u, b, actor)
  {
  }

  lemma {:induction false} BatchDelivered(u: set<Operation>, p: Peer, ops: set<Operation>, q: Peer)
    requires q.actor == p.actor && UpToDate(u, q) && q.waiting <= u && (forall o :: o in q.waiting ==> !Ready(u, q.applied, o))
    requires Known(q) == Known(p) + ops && p.applied <= q.applied && p.next <= q.next
    ensures Delivers(u, p, ops, q)
  {
    hide UpToDate, Ready;
  }

  lemma {:induction false} KeepsApplied(u: set<Operation>, was: set<Operation>, s: set<Operation>, a: set<Operation>)
    requires Closed(u, was) && was <= s && IsGreatestClosed(u, s, a)
    ensures was <= a
  {
  }

  lemma {:induction false} RangesInside(ranges: seq<Range>, n: nat)
    requires InSequence(ranges, n)
    ensures forall i :: 0 <= i < |ranges| ==> ranges[i].start <= ranges[i].end <= n
  {
  }

  lemma {:induction false} NoOverflow(stack: seq<Group>, cursor: nat, retained: nat)
    requires cursor <= |stack| && Retained(stack) <= SIZE_MAX / 2 && retained <= SIZE_MAX / 2
    ensures Retained(stack[..cursor]) + retained <= SIZE_MAX
  {
    SumsSplit(stack, cursor);
  }

  /** Only sizes matter to the budgets. */
  lemma {:induction false} SameShape(stack: seq<Group>, cursor: nat, g: Group, h: Group, depth: nat, limit: nat, retired: seq<Group>)
    requires cursor <= |stack| && g.retained == h.retained
    requires |g.operations| == |h.operations| && |g.inserted| == |h.inserted| && |g.deletions| == |h.deletions|
    ensures var x, y := Candidates(stack, cursor, g), Candidates(stack, cursor, h);
            && Excess(x, depth, limit) == Excess(y, depth, limit)
            && (Fits(x[Excess(x, depth, limit)..], retired + stack[cursor..] + x[..Excess(x, depth, limit)])
                <==> Fits(y[Excess(y, depth, limit)..], retired + stack[cursor..] + y[..Excess(y, depth, limit)]))
  {
    var x, y := Candidates(stack, cursor, g), Candidates(stack, cursor, h);
    SameExcess(x, y, depth, limit);
    var n := Excess(x, depth, limit);
    SameCharges(x[..n], y[..n]);
    PendingSum(stack[cursor..], x, n, retired);
    PendingSum(stack[cursor..], y, n, retired);
  }

  ghost predicate Alike(x: seq<Group>, y: seq<Group>) {
    |x| == |y| && forall i :: 0 <= i < |x| ==> x[i].retained == y[i].retained && Charge(x[i]) == Charge(y[i])
  }

  lemma {:induction false} SameCharges(x: seq<Group>, y: seq<Group>)
    requires Alike(x, y)
    ensures Charges(x) == Charges(y) && Retained(x) == Retained(y)
  {
    hide Charge;
    if x != [] { SameCharges(x[..|x| - 1], y[..|y| - 1]); }
  }

  lemma {:induction false} SameExcess(x: seq<Group>, y: seq<Group>, depth: nat, limit: nat)
    requires Alike(x, y)
    ensures Excess(x, depth, limit) == Excess(y, depth, limit)
    decreases |x|
  {
    SameCharges(x, y);
    hide Charge, Retained, Charges;
    if x != [] { SameExcess(x[1..], y[1..], depth, limit); }
  }

  /** The groups left by an edit are known once it is applied. */
  lemma {:induction false} CommitKnown(u: set<Operation>, was: set<Operation>, o: Operation, retained: nat, stack: seq<Group>, cursor: nat)
    requires Honest(u) && was + {o} <= u && o.Edit? && cursor <= |stack|
    requires forall g :: g in stack ==> GroupKnown(was, g) && g.id.actor == o.timestamp.actor
    ensures forall g :: g in Candidates(stack, cursor, GroupOf(o, retained)) ==> GroupKnown(was + {o}, g) && g.id.actor == o.timestamp.actor
  {
    hide Honest, GroupKnown;
    EditIsKnown(u, was + {o}, o, retained);
    forall g | g in stack
      ensures GroupKnown(was + {o}, g)
    {
      KnownStays(u, was, was + {o}, g);
    }
  }

  /** Undoing an edit before anything else happens gives back the text before it:
      `p` is the replica before the edit, `q` after it, `back` the document once the
      latest group is undone. */
  lemma {:induction false} UndoGivesTextBack(u: set<Operation>, p: Peer, q: Peer, o: Operation, g: Group, ranges: seq<Range>, news: seq<seq<Scalar>>,
                                             undo: seq<UndoEntry>, back: seq<Item>)
    requires UpToDate(u, p) && Mints(u, p, o, q) && q.undo == p.undo && Records(g, o)
    requires IsEdit(Items(p.frags), ranges, news, p.actor, p.next, o, Items(q.frags))
    requires Undid(q.applied, g, q.undo, Items(q.frags), undo, back)
    ensures Text(back) == Text(Items(p.frags))
  {
    HonestParts(u, p);
    RepresentedParts(u, p);
    MintKeepsHonest(u, p.applied, p.version, o);
    var e :| e in q.applied && Records(g, e) && CountedOnce(q.undo, undo, e) && Reverts(e, q.undo, Items(q.frags), back);
    SameStampSameOperation(u + {o}, e, o);
    hide UpToDate, Honest, Closed, IsFrontier, MintedFrom, IsEdit, Records, CountedOnce, Reverts, Represents;
    EditThenUndo(u, p.applied, p.version, Items(p.frags), p.undo, ranges, news, p.actor, p.next, o, Items(q.frags), back);
  }

  /** What the replica's groups are once a new edit's has joined them. */
  lemma {:induction false} NewGroup(u: set<Operation>, a: set<Operation>, frags: seq<Fragment>, index: RunIndex, undo: seq<UndoEntry>, v: Version,
                                    next: nat, actor: ActorId, o: Operation, retained: nat, stack: seq<Group>, cursor: nat)
    requires IsCurrent(u, a, frags, index, undo, v, next) && MintedFrom(u, a, v, o) && o.Edit? && o.timestamp.actor == actor
    requires NamesApart(stack) && AllAct(a, actor, undo, stack, cursor) && cursor <= |stack|
    requires forall g :: g in stack ==> GroupKnown(a, g) && g.id.actor == actor
    ensures NamesApart(Candidates(stack, cursor, GroupOf(o, retained)))
    ensures forall g :: g in Candidates(stack, cursor, GroupOf(o, retained)) ==> GroupKnown(a + {o}, g) && g.id.actor == actor
    ensures AllAct(a + {o}, actor, undo, stack, cursor) && Acts(a + {o}, actor, undo, GroupOf(o, retained), true)
    ensures Records(GroupOf(o, retained), o)
  {
    EmittedFacts(u, a, frags, index, undo, v, next, o);
    AppliedInside(u, a, frags, index, undo, v, next);
    CurrentTold(u, a, frags, index, undo, v, next);
    hide IsCurrent, MintedFrom, Honest, GroupKnown, AllAct, Acts, Records, NamesApart, UndoTold, Represents, Closed;
    CommitKnown(u + {o}, a, o, retained, stack, cursor);
    NewNameIsApart(u, a, o, stack, cursor, GroupOf(o, retained));
    NewActs(u, a, v, actor, undo, o, retained, stack, cursor);
  }

  /** A new edit's group is in force, and the others still act as they did. */
  lemma {:induction false} NewActs(u: set<Operation>, a: set<Operation>, v: Version, actor: ActorId, undo: seq<UndoEntry>, o: Operation, retained: nat,
                                   stack: seq<Group>, cursor: nat)
    requires Honest(u) && MintedFrom(u, a, v, o) && UndoTold(a, undo) && o.Edit? && o.timestamp.actor == actor
    requires AllAct(a, actor, undo, stack, cursor)
    ensures AllAct(a + {o}, actor, undo, stack, cursor) && Acts(a + {o}, actor, undo, GroupOf(o, retained), true)
    ensures Records(GroupOf(o, retained), o)
  {
    MintKeepsHonest(u, a, v, o);
    GroupRecords(u + {o}, o, retained);
    NewIsInForce(u, a, v, undo, o);
    assert a <= u;
    hide Honest, MintedFrom, AllAct, Records, InForce, UndoTold, GroupOf;
    AllActLater(u + {o}, a, a + {o}, actor, undo, stack, cursor);
    assert ActsAs(a + {o}, actor, undo, GroupOf(o, retained), true, o);
  }

  lemma {:induction false} TailKnown(a: set<Operation>, actor: ActorId, groups: seq<Group>, n: nat)
    requires n <= |groups| && forall g :: g in groups ==> GroupKnown(a, g) && g.id.actor == actor
    ensures forall g :: g in groups[n..] ==> GroupKnown(a, g) && g.id.actor == actor
  {
    hide GroupKnown;
    assert forall g :: g in groups[n..] ==> g in groups;
  }

  lemma {:induction false} SameGroups(x: seq<Group>, y: seq<Group>)
    requires multiset(x) == multiset(y)
    ensures forall g :: g in y <==> g in x
  {
    forall g
      ensures g in y <==> g in x
    {
      assert g in multiset(x) <==> g in x;
      assert g in multiset(y) <==> g in y;
    }
  }

  lemma EmittedFacts(u: set<Operation>, a: set<Operation>, frags: seq<Fragment>, index: RunIndex, undo: seq<UndoEntry>, v: Version, next: nat,
                     o: Operation)
    requires IsCurrent(u, a, frags, index, undo, v, next) && MintedFrom(u, a, v, o)
    ensures o !in u && Honest(u + {o})
  {
    MintKeepsHonest(u, a, v, o);
  }

  lemma NextPositive(u: set<Operation>, a: set<Operation>, frags: seq<Fragment>, index: RunIndex, undo: seq<UndoEntry>, v: Version, next: nat,
                     actor: ActorId, o: Operation)
    requires IsCurrent(u, a, frags, index, undo, v, next) && o in a
    ensures next > 0
  {
    assert Observed(v, o.timestamp);
    assert WellMinted(o, FirstCounter(o));
    assert o.timestamp.actor in v;
  }
}
