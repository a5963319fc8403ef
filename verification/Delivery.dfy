/** Delivery of operations: causal closure, the effect of one ready operation on
    document, version and clock, and the deferral queue. */
module Delivery {
  import opened Ids
  import opened VersionVectors
  import opened FugueOrder
  import opened Fragments
  import opened Histories
  import opened Indexes
  import opened Sorting
  import opened Representation
  import opened Visibility
  import opened RemoteEdits

  // ---- Causal closure ----------------------------------------------------

  /** Everything `o`'s author had applied is in `a`. */
  ghost predicate Ready(u: set<Operation>, a: set<Operation>, o: Operation) {
    forall p :: p in u && Observed(o.version, p.timestamp) ==> p in a
  }

  ghost predicate IsGreatestClosed(u: set<Operation>, s: set<Operation>, a: set<Operation>) {
    Closed(u, a) && a <= s && forall b :: Closed(u, b) && b <= s ==> b <= a
  }

  /** When nothing held is ready, all that can be applied is. */
  lemma SettledIsGreatest(u: set<Operation>, a: set<Operation>, held: set<Operation>)
    requires Honest(u) && Closed(u, a) && forall o :: o in held ==> !Ready(u, a, o)
    ensures IsGreatestClosed(u, a + held, a)
  {
    forall b, o | Closed(u, b) && b <= a + held && o in b
      ensures o in a
    {
      ClosedPartIsApplied(u, a, held, b, o);
    }
  }

  lemma {:induction false} ClosedPartIsApplied(u: set<Operation>, a: set<Operation>, held: set<Operation>, b: set<Operation>, o: Operation)
    requires Honest(u) && forall o :: o in held ==> !Ready(u, a, o)
    requires Closed(u, b) && b <= a + held && o in b
    ensures o in a
    decreases o.timestamp.counter
  {
    assert WellMinted(o, FirstCounter(o));
    forall p | p in u && Observed(o.version, p.timestamp)
      ensures p in a
    {
      assert WellMinted(p, FirstCounter(p));
      ClosedPartIsApplied(u, a, held, b, p);
    }
  }

  /** The greatest closed part is unique: delivery order cannot matter. */
  lemma GreatestIsUnique(u: set<Operation>, s: set<Operation>, a: set<Operation>, b: set<Operation>)
    requires IsGreatestClosed(u, s, a) && IsGreatestClosed(u, s, b)
    ensures a == b
  {
  }

  lemma FrontierIsUnique(a: set<Operation>, v: Version, w: Version)
    requires IsFrontier(a, v) && IsFrontier(a, w)
    ensures v == w
  {
    FrontierBelow(a, v, w);
    FrontierBelow(a, w, v);
    Extensional(v, w);
  }

  lemma FrontierBelow(a: set<Operation>, v: Version, w: Version)
    requires IsFrontier(a, v) && IsFrontier(a, w)
    ensures forall b :: Get(v, b) <= Get(w, b)
  {
    forall b | b in v
      ensures v[b] <= Get(w, b)
    {
      var o :| o in a && o.timestamp == Identity(b, v[b]);
      assert Observed(w, o.timestamp);
    }
  }

  /** Operations of one actor depend on each other in order. */
  lemma LaterIsBlocked(u: set<Operation>, a: set<Operation>, o: Operation, p: Operation)
    requires Honest(u) && Closed(u, a) && o in u && p in u
    requires o.timestamp.actor == p.timestamp.actor && o.timestamp.counter <= p.timestamp.counter
    requires !Ready(u, a, o)
    ensures !Ready(u, a, p)
  {
    assert WellMinted(o, FirstCounter(o)) && WellMinted(p, FirstCounter(p));
    if o != p {
      assert Precedes(o, p) || Precedes(p, o);
      assert Observed(p.version, o.timestamp);
    }
  }

  // ---- Applying one operation to the document ----------------------------

  lemma OperationsAreNotItems(u: set<Operation>, p: Operation, q: Operation)
    requires Honest(u) && p in u && q in u
    ensures !InsertsId(p, q.timestamp)
  {
    assert WellMinted(p, FirstCounter(p)) && WellMinted(q, FirstCounter(q));
    assert p != q && p.timestamp.actor == q.timestamp.actor ==> Precedes(p, q) || Precedes(q, p);
    if InsertsId(p, q.timestamp) {
      ItemInInterval(u, p, q.timestamp);
    }
  }

  lemma RepresentedRunsShown(a: set<Operation>, frags: seq<Fragment>, undo: seq<UndoEntry>)
    requires NonEmptyRuns(frags) && Represents(a, Items(frags), undo)
    ensures RunsShown(frags, undo)
  {
    ShownRuns(frags, undo);
  }

  lemma RepresentedDeletionsApart(u: set<Operation>, a: set<Operation>, frags: seq<Fragment>, undo: seq<UndoEntry>)
    requires Honest(u) && a <= u && NonEmptyRuns(frags) && Represents(a, Items(frags), undo)
    ensures DeletionsApart(frags)
  {
    forall i, d | 0 <= i < |frags| && d in frags[i].deletions
      ensures !Has(DocOf(frags), d)
    {
      FlatItem(frags, Pos(i, 0));
      var x := Items(frags)[Flat(frags, Pos(i, 0))];
      assert d in x.dels;
      var q :| q in a && q.timestamp == d && Deletes(q, x.node.id);
      NoItemIsOperation(u, a, Items(frags), q);
    }
  }

  lemma NoItemIsOperation(u: set<Operation>, a: set<Operation>, items: seq<Item>, q: Operation)
    requires Honest(u) && a <= u && q in u && Contents(items) <= Supplied(a)
    ensures !Has(NodesOf(items), q.timestamp)
  {
    HasContent(items, q.timestamp);
    if Has(NodesOf(items), q.timestamp) {
      var c :| c in Contents(items) && c.node.id == q.timestamp;
      var p :| p in a && c in Supply(p);
      SupplyIsMinted(p, c);
      OperationsAreNotItems(u, p, q);
    }
  }

  /** Record the counts, then recompute what they touch. */
  method ApplyUndo(ghost u: set<Operation>, ghost a: set<Operation>, frags: seq<Fragment>, index: RunIndex, undo: seq<UndoEntry>, o: Operation)
    returns (r: seq<Fragment>, undo': seq<UndoEntry>)
    requires State(u, a, frags, index, undo) && Next(u, a, o) && o.Undo?
    ensures State(u, a + {o}, r, index, undo')
    ensures undo' == undo + EntriesOf(o) && Items(r) == ShowAll(Items(frags), undo')
  {
    var more := EntriesOf(o);
    var targets := seq(|o.counts|, i requires 0 <= i < |o.counts| => o.counts[i].target);
    RepresentedRunsShown(a, frags, undo);
    RepresentedDeletionsApart(u, a, frags, undo);
    assert forall i :: 0 <= i < |more| ==> more[i].target == targets[i];
    r := RecomputeFor(frags, index, undo, more, targets);
    undo' := undo + more;
    UndoneIsState(u, a, frags, index, undo, o);
  }

  lemma {:induction false} UndoneIsState(u: set<Operation>, a: set<Operation>, frags: seq<Fragment>, index: RunIndex, undo: seq<UndoEntry>,
                                         o: Operation)
    requires State(u, a, frags, index, undo) && Next(u, a, o) && o.Undo?
    ensures var undo' := undo + EntriesOf(o);
            && State(u, a + {o}, ShowRuns(frags, undo'), index, undo')
            && Items(ShowRuns(frags, undo')) == ShowAll(Items(frags), undo')
  {
    var undo' := undo + EntriesOf(o);
    var r := ShowRuns(frags, undo');
    UndoIsApplied(u, a, o, Items(frags), undo);
    UndoneRunsItems(u, a, frags, undo, o);
    ApplyKeepsClosed(u, a, o);
    if index.valid { SameRowsCoherent(frags, r, index); }
    StillUnspent(a, o, index, r, undo', 0, index);
    hide Represents, Honest, Closed, Unspent, Coherent, EntriesOf;
  }

  lemma UndoneRunsItems(u: set<Operation>, a: set<Operation>, frags: seq<Fragment>, undo: seq<UndoEntry>, o: Operation)
    requires Next(u, a, o) && o.Undo? && Represents(a, Items(frags), undo)
    ensures Items(ShowRuns(frags, undo + EntriesOf(o))) == ShowAll(Items(frags), undo + EntriesOf(o))
  {
    UndoIsApplied(u, a, o, Items(frags), undo);
    ShowAllKeeps(Items(frags), undo + EntriesOf(o));
    RunsAreUniform(u, a + {o}, frags, undo + EntriesOf(o));
    ShowRunsItems(frags, undo + EntriesOf(o));
  }

  /** One step of an edit: a shortcut if one fits, the general path otherwise. */
  method ApplyEdit(ghost u: set<Operation>, ghost a: set<Operation>, frags: seq<Fragment>, index: RunIndex, undo: seq<UndoEntry>, o: Operation)
    returns (ok: bool, r: seq<Fragment>, index': RunIndex)
    requires State(u, a, frags, index, undo) && Next(u, a, o) && o.Edit?
    ensures ok && State(u, a + {o}, r, index', undo)
  {
    if o.deletions == [] && |o.inserts| == 1 {
      ok, r, index' := TryAppend(u, a, frags, index, undo, o);
      if ok { return; }
    }
    if o.inserts == [] && |o.deletions| == 1 && !o.markerEdit && index.valid {
      ok, r, index' := TryDeleteRun(u, a, frags, index, undo, o);
      if ok { return; }
    }
    ok, r, index' := PlaceEdit(u, a, frags, index, undo, o);
  }

  /** The document is that of the applied operations, the version exactly their
      frontier, and the clock is ahead of it. */
  ghost predicate IsCurrent(u: set<Operation>, a: set<Operation>, frags: seq<Fragment>, index: RunIndex, undo: seq<UndoEntry>,
                            v: Version, next: nat) {
    State(u, a, frags, index, undo) && IsFrontier(a, v) && forall b :: b in v ==> v[b] < next
  }

  lemma ObservedIsCurrent(u: set<Operation>, a: set<Operation>, frags: seq<Fragment>, index: RunIndex, undo: seq<UndoEntry>,
                          v: Version, next: nat, o: Operation)
    requires State(u, a + {o}, frags, index, undo)
    requires Closed(u, a) && IsFrontier(a, v) && o in u && o !in a && Covers(v, o.version)
    requires forall b :: b in v ==> v[b] < next
    ensures IsCurrent(u, a + {o}, frags, index, undo, Join(Observe(v, o.timestamp), o.version), Max(next, o.timestamp.counter + 1))
  {
    FrontierAdvances(u, a, v, next, o);
  }

  /** Raise version and clock over an operation just applied. */
  method AdvanceClock(ghost u: set<Operation>, ghost a: set<Operation>, ghost frags: seq<Fragment>, ghost index: RunIndex, ghost undo: seq<UndoEntry>,
                      v: Version, next: nat, o: Operation) returns (v': Version, next': nat)
    requires State(u, a + {o}, frags, index, undo)
    requires Closed(u, a) && IsFrontier(a, v) && o in u && o !in a && Covers(v, o.version)
    requires forall b :: b in v ==> v[b] < next
    ensures IsCurrent(u, a + {o}, frags, index, undo, v', next') && next' >= next
  {
    ObservedIsCurrent(u, a, frags, index, undo, v, next, o);
    next' := Max(next, o.timestamp.counter + 1);
    v' := Join(Observe(v, o.timestamp), o.version);
  }

  /** Apply an operation that is new and has all it depends on. */
  method ApplyReady(ghost u: set<Operation>, ghost a: set<Operation>, frags: seq<Fragment>, index: RunIndex, undo: seq<UndoEntry>,
                    v: Version, next: nat, o: Operation)
    returns (ok: bool, frags': seq<Fragment>, index': RunIndex, undo': seq<UndoEntry>, v': Version, next': nat)
    requires IsCurrent(u, a, frags, index, undo, v, next) && Next(u, a, o) && Covers(v, o.version)
    ensures ok && IsCurrent(u, a + {o}, frags', index', undo', v', next') && next' >= next
  {
    ok, frags', index', undo', v', next' := true, frags, index, undo, v, next;
    if o.Edit? {
      ok, frags', index' := ApplyEdit(u, a, frags, index, undo, o);
      if !ok { return; }
    } else {
      frags', undo' := ApplyUndo(u, a, frags, index, undo, o);
    }
    v', next' := AdvanceClock(u, a, frags', index', undo', v, next, o);
  }

  /** What the version vector says about an operation: whether it was applied and
      whether it can be. */
  lemma Gate(u: set<Operation>, a: set<Operation>, frags: seq<Fragment>, index: RunIndex, undo: seq<UndoEntry>,
             v: Version, next: nat, o: Operation)
    requires IsCurrent(u, a, frags, index, undo, v, next) && o in u
    ensures Observed(v, o.timestamp) <==> o in a
    ensures Covers(v, o.version) <==> Ready(u, a, o)
    ensures o in a ==> Ready(u, a, o) && a + {o} == a
    ensures o !in a && Ready(u, a, o) ==> Next(u, a, o)
  {
    hide Honest, IsFrontier, Represents, NonEmptyRuns, IndexKept, Unspent, Covers;
    VersionIsExact(u, a, v, o);
    ReadyIsClosed(u, a, v, o);
  }

  lemma FrontierAdvances(u: set<Operation>, a: set<Operation>, v: Version, next: nat, o: Operation)
    requires Honest(u) && Closed(u, a) && IsFrontier(a, v) && o in u && o !in a && Covers(v, o.version)
    requires forall b :: b in v ==> v[b] < next
    ensures IsFrontier(a + {o}, Join(Observe(v, o.timestamp), o.version))
    ensures var w := Join(Observe(v, o.timestamp), o.version);
            forall b :: b in w ==> w[b] < Max(next, o.timestamp.counter + 1)
  {
    ApplyKeepsFrontier(u, a, v, o);
  }

  // ---- Histories grow ----------------------------------------------------

  /** Another replica minting an operation takes nothing from this one: what it
      has applied stays closed, and no operation becomes ready or unready. */
  lemma {:induction false} MintingElsewhere(u: set<Operation>, a: set<Operation>, v: Version, o: Operation, b: set<Operation>)
    requires Honest(u) && MintedFrom(u, a, v, o) && Closed(u, b)
    ensures Honest(u + {o}) && Closed(u + {o}, b)
    ensures forall p :: p in u ==> (Ready(u + {o}, b, p) <==> Ready(u, b, p))
  {
    MintKeepsHonest(u, a, v, o);
    forall p | p in u
      ensures !Observed(p.version, o.timestamp)
    {
      NewIsUnseen(u, a, v, o, p);
    }
  }

  // ---- The queue ---------------------------------------------------------

  predicate NotAfter(a: Operation, b: Operation) {
    a.timestamp == b.timestamp || IdLess(a.timestamp, b.timestamp)
  }

  ghost predicate InOrder(queue: seq<Operation>) {
    forall i, j :: 0 <= i < j < |queue| ==> NotAfter(queue[i], queue[j])
  }

  ghost function Held(queue: seq<Operation>): set<Operation> {
    set o | o in queue
  }

  ghost function Actors(queue: seq<Operation>): set<ActorId> {
    set o | o in queue :: o.timestamp.actor
  }

  function TotalCost(cost: Operation -> nat, queue: seq<Operation>): nat {
    if queue == [] then 0 else TotalCost(cost, queue[..|queue| - 1]) + cost(queue[|queue| - 1])
  }

  lemma {:induction false} CostOfPrefix(cost: Operation -> nat, ops: seq<Operation>, i: nat)
    requires i < |ops|
    ensures TotalCost(cost, ops[..i + 1]) == TotalCost(cost, ops[..i]) + cost(ops[i]) <= TotalCost(cost, ops)
  {
    assert ops[..i + 1][..i] == ops[..i];
    assert ops == ops[..i + 1] + ops[i + 1..];
    CostConcat(cost, ops[..i + 1], ops[i + 1..]);
  }

  lemma {:induction false} CostConcat(cost: Operation -> nat, a: seq<Operation>, b: seq<Operation>)
    ensures TotalCost(cost, a + b) == TotalCost(cost, a) + TotalCost(cost, b)
    decreases |b|
  {
    if b == [] {
      assert a + b == a;
    } else {
      CostConcat(cost, a, b[..|b| - 1]);
      assert (a + b)[..|a + b| - 1] == a + b[..|b| - 1];
    }
  }

  /** Insert in timestamp order. */
  method Enqueue(ghost cost: Operation -> nat, queue: seq<Operation>, o: Operation) returns (r: seq<Operation>)
    requires InOrder(queue)
    ensures InOrder(r) && Held(r) == Held(queue) + {o} && |r| == |queue| + 1
    ensures Actors(r) == Actors(queue) + {o.timestamp.actor}
    ensures TotalCost(cost, r) == TotalCost(cost, queue) + cost(o)
  {
    var k := 0;
    while k < |queue| && IdLess(queue[k].timestamp, o.timestamp)
      invariant k <= |queue| && forall j :: 0 <= j < k ==> IdLess(queue[j].timestamp, o.timestamp)
    {
      k := k + 1;
    }
    EnqueueAt(cost, queue, k, o);
    r := queue[..k] + [o] + queue[k..];
  }

  lemma EnqueueAt(cost: Operation -> nat, queue: seq<Operation>, k: nat, o: Operation)
    requires InOrder(queue) && k <= |queue|
    requires forall j :: 0 <= j < k ==> IdLess(queue[j].timestamp, o.timestamp)
    requires k < |queue| ==> !IdLess(queue[k].timestamp, o.timestamp)
    ensures InOrder(queue[..k] + [o] + queue[k..])
    ensures Held(queue[..k] + [o] + queue[k..]) == Held(queue) + {o}
    ensures Actors(queue[..k] + [o] + queue[k..]) == Actors(queue) + {o.timestamp.actor}
    ensures TotalCost(cost, queue[..k] + [o] + queue[k..]) == TotalCost(cost, queue) + cost(o)
  {
    EnqueueOrder(queue, k, o);
    EnqueueHolds(queue, k, o);
    EnqueueCosts(cost, queue, k, o);
  }

  lemma EnqueueCosts(cost: Operation -> nat, queue: seq<Operation>, k: nat, o: Operation)
    requires k <= |queue|
    ensures TotalCost(cost, queue[..k] + [o] + queue[k..]) == TotalCost(cost, queue) + cost(o)
  {
    assert queue == queue[..k] + queue[k..];
    CostConcat(cost, queue[..k] + [o], queue[k..]);
    CostConcat(cost, queue[..k], [o]);
    CostConcat(cost, queue[..k], queue[k..]);
    assert [o][..0] == [];
  }

  lemma EnqueueHolds(queue: seq<Operation>, k: nat, o: Operation)
    requires k <= |queue|
    ensures Held(queue[..k] + [o] + queue[k..]) == Held(queue) + {o}
    ensures Actors(queue[..k] + [o] + queue[k..]) == Actors(queue) + {o.timestamp.actor}
  {
    var r := queue[..k] + [o] + queue[k..];
    assert queue == queue[..k] + queue[k..];
    forall x
      ensures x in r <==> x in queue || x == o
    {
    }
  }

  function StampKey(o: Operation): SortKey {
    SortKey(o.timestamp.counter, o.timestamp.actor)
  }

  lemma {:induction false} InOrderAscends(queue: seq<Operation>)
    ensures InOrder(queue) <==> KeysAscend(queue, StampKey)
  {
    assert forall a, b :: NotAfter(a, b) <==> !KeyBelow(StampKey(b), StampKey(a));
  }

  lemma {:induction false} EnqueueOrder(queue: seq<Operation>, k: nat, o: Operation)
    requires InOrder(queue) && k <= |queue|
    requires forall j :: 0 <= j < k ==> IdLess(queue[j].timestamp, o.timestamp)
    requires k < |queue| ==> !IdLess(queue[k].timestamp, o.timestamp)
    ensures InOrder(queue[..k] + [o] + queue[k..])
  {
    InOrderAscends(queue);
    InOrderAscends(queue[..k] + [o] + queue[k..]);
    hide InOrder;
    AheadFits(queue, StampKey, k, o);
    InsertAscends(queue, StampKey, k, o);
  }

  // ---- Outcomes ----------------------------------------------------------

  datatype Step = Applied | NotReady | Malformed

  datatype Outcome = Done | Duplicate | Deferred(awaiting: Identity) | Refused

  datatype Budget = Budget(operations: nat, bytes: nat)

  /** No room for one more operation of this size. */
  predicate Exhausted(budget: Budget, queued: nat, bytes: nat, incoming: nat) {
    || queued >= budget.operations
    || budget.bytes == 0
    || incoming > budget.bytes
    || bytes > budget.bytes - incoming
  }

  /** Operations wait whose actor minted them no later than `o`. */
  ghost predicate Behind(waiting: set<Operation>, o: Operation) {
    exists p :: p in waiting && p.timestamp.actor == o.timestamp.actor && p.timestamp.counter <= o.timestamp.counter
  }

  /** What becomes of an accepted operation: only one that has to wait can be
      refused for lack of room. */
  ghost predicate Answers(u: set<Operation>, a: set<Operation>, waiting: set<Operation>, full: bool, o: Operation, out: Outcome) {
    if o in a then out.Duplicate?
    else if Ready(u, a, o) && !Behind(waiting, o) then out.Done?
    else if full then out.Refused?
    else out.Deferred?
  }

  /** What a waiting operation waits for: something it has seen and the replica has
      not, or its turn behind others of its actor. */
  predicate Awaits(v: Version, o: Operation, awaiting: Identity) {
    if Covers(v, o.version) then awaiting.actor == o.timestamp.actor && awaiting.counter == o.timestamp.counter - 1
    else !Observed(v, awaiting) && Observed(o.version, awaiting)
  }

  /** What is reported as missing was seen after all exactly if the operation only
      waits its turn and nothing of its actor's is missing. */
  lemma {:induction false} AwaitedIsSeen(v: Version, o: Operation, awaiting: Identity)
    requires Awaits(v, o, awaiting) && !Observed(v, o.timestamp)
    ensures Observed(v, awaiting) <==> Covers(v, o.version) && Get(v, o.timestamp.actor) == o.timestamp.counter - 1
  {
    hide Covers;
  }

  /** As when an actor's second edit was waiting, its first is applied, and the second is
      offered again in one batch: it is said to wait for the first. */
  lemma {:induction false} AwaitsApplied()
    ensures var first, second := Empty(1, map[]), Empty(2, map[1 := 1]);
            && Honest({first, second}) && Accepted(second) && Ready({first, second}, {first}, second) && Behind({second}, second)
            && Awaits(map[1 := 1], second, first.timestamp)
  {
    TwoAreHonest();
    hide Honest;
  }

  /** An edit that does nothing. */
  function Empty(counter: nat, v: Version): Operation {
    Edit(Identity(1, counter), v, false, [], [], 0)
  }

  lemma {:induction false} TwoAreHonest()
    ensures Honest({Empty(1, map[]), Empty(2, map[1 := 1])})
  {
    var first, second := Empty(1, map[]), Empty(2, map[1 := 1]);
    EmptyIsMinted({}, {}, map[], first);
    MintKeepsHonest({}, {}, map[], first);
    assert {} + {first} == {first};
    assert Closed({first}, {first}) && IsFrontier({first}, map[1 := 1]);
    hide Honest, Closed, IsFrontier, MintedFrom;
    EmptyIsMinted({first}, {first}, map[1 := 1], second);
    MintKeepsHonest({first}, {first}, map[1 := 1], second);
    assert {first} + {second} == {first, second};
  }

  lemma {:induction false} EmptyIsMinted(u: set<Operation>, a: set<Operation>, v: Version, o: Operation)
    requires o.Edit? && !o.markerEdit && o.inserts == [] && o.deletions == [] && o.version == v && o !in u && a == u
    requires Closed(u, a) && IsFrontier(a, v) && ValidActor(o.timestamp.actor) && o.timestamp.counter > 0
    requires forall b :: b in v ==> v[b] < o.timestamp.counter
    ensures MintedFrom(u, a, v, o)
  {
    assert FirstCounter(o) == o.timestamp.counter && WellMinted(o, o.timestamp.counter);
  }

  /** Nothing that is not waiting itself is ready and yet behind something waiting. */
  lemma {:induction false} ReadyIsNotBehind(u: set<Operation>, a: set<Operation>, waiting: set<Operation>, o: Operation)
    requires Honest(u) && o in u && waiting <= u && waiting !! a
    requires Ready(u, a, o) && o !in waiting
    ensures !Behind(waiting, o)
  {
    if Behind(waiting, o) {
      var p :| p in waiting && p.timestamp.actor == o.timestamp.actor && p.timestamp.counter <= o.timestamp.counter;
      EarlierIsApplied(u, a, o, p);
    }
  }

  lemma {:induction false} EarlierIsApplied(u: set<Operation>, a: set<Operation>, o: Operation, p: Operation)
    requires Honest(u) && o in u && p in u && Ready(u, a, o) && o != p
    requires p.timestamp.actor == o.timestamp.actor && p.timestamp.counter <= o.timestamp.counter
    ensures p in a
  {
    assert WellMinted(o, FirstCounter(o)) && WellMinted(p, FirstCounter(p));
    assert Precedes(o, p) || Precedes(p, o);
  }

  /** What a pass over the queue keeps: nothing is lost, order stays, and as long
      as nothing was applied, nothing passed over was ready. */
  ghost predicate Passing(u: set<Operation>, before: set<Operation>, a: set<Operation>, queue: seq<Operation>, remaining: seq<Operation>, i: nat) {
    && i <= |queue| && |remaining| <= i
    && InOrder(queue) && Held(queue) <= u && InOrder(remaining) && Held(remaining) <= Held(queue[..i])
    && a + Held(remaining) == before + Held(queue[..i])
    && (|remaining| == i ==> a == before && forall o :: o in remaining ==> !Ready(u, a, o))
  }

  lemma HeldStep(queue: seq<Operation>, i: nat)
    requires i < |queue|
    ensures Held(queue[..i + 1]) == Held(queue[..i]) + {queue[i]}
    ensures queue[i] in Held(queue)
  {
    assert queue[..i + 1] == queue[..i] + [queue[i]];
  }

  /** The next operation was applied, before or now. */
  lemma PassApplied(u: set<Operation>, before: set<Operation>, a: set<Operation>, queue: seq<Operation>, remaining: seq<Operation>, i: nat)
    requires i < |queue| && Passing(u, before, a, queue, remaining, i)
    ensures queue[i] in u
    ensures Passing(u, before, a + {queue[i]}, queue, remaining, i + 1)
  {
    HeldStep(queue, i);
  }

  /** The next operation stays behind one of its actor that is not ready. */
  lemma PassBlocked(u: set<Operation>, before: set<Operation>, a: set<Operation>, queue: seq<Operation>, remaining: seq<Operation>, i: nat)
    requires Honest(u) && Closed(u, a)
    requires i < |queue| && Passing(u, before, a, queue, remaining, i) && queue[i].timestamp.actor in Actors(remaining)
    ensures |remaining| == i ==> !Ready(u, a, queue[i])
  {
    HeldStep(queue, i);
    var o :| o in remaining && o.timestamp.actor == queue[i].timestamp.actor;
    assert o in Held(queue[..i]);
    var j :| 0 <= j < i && queue[j] == o;
    assert NotAfter(queue[j], queue[i]);
    assert o in Held(queue) by { assert queue[j] in queue; }
    if |remaining| == i {
      LaterIsBlocked(u, a, o, queue[i]);
    }
  }

  lemma PassStarts(u: set<Operation>, a: set<Operation>, queue: seq<Operation>)
    requires InOrder(queue) && Held(queue) <= u
    ensures Passing(u, a, a, queue, [], 0)
  {
  }

  lemma PassEnds(u: set<Operation>, before: set<Operation>, a: set<Operation>, queue: seq<Operation>, remaining: seq<Operation>)
    requires Passing(u, before, a, queue, remaining, |queue|)
    ensures Held(remaining) <= u && InOrder(remaining)
    ensures a + Held(remaining) == before + Held(queue)
    ensures |remaining| == |queue| ==> forall o :: o in remaining ==> !Ready(u, a, o)
  {
    hide Ready;
    assert queue[..|queue|] == queue;
  }

  lemma PassKept(u: set<Operation>, before: set<Operation>, a: set<Operation>, queue: seq<Operation>, remaining: seq<Operation>, i: nat, cost: Operation -> nat)
    requires i < |queue| && Passing(u, before, a, queue, remaining, i)
    requires |remaining| == i ==> !Ready(u, a, queue[i])
    ensures Passing(u, before, a, queue, remaining + [queue[i]], i + 1)
    ensures Actors(remaining + [queue[i]]) == Actors(remaining) + {queue[i].timestamp.actor}
    ensures TotalCost(cost, remaining + [queue[i]]) == TotalCost(cost, remaining) + cost(queue[i])
  {
    hide Ready, InOrder, Held, Actors;
    HeldStep(queue, i);
    HeldMore(remaining, queue[i]);
    StaysInOrder(queue, remaining, i);
    AddBoth(a, Held(remaining), before, Held(queue[..i]), queue[i]);
  }

  lemma AddBoth(a: set<Operation>, r: set<Operation>, b: set<Operation>, q: set<Operation>, o: Operation)
    requires a + r == b + q && r <= q
    ensures a + (r + {o}) == b + (q + {o}) && r + {o} <= q + {o}
  {
    assert a + (r + {o}) == a + r + {o} && b + (q + {o}) == b + q + {o};
  }

  lemma HeldMore(queue: seq<Operation>, o: Operation)
    ensures Held(queue + [o]) == Held(queue) + {o}
    ensures Actors(queue + [o]) == Actors(queue) + {o.timestamp.actor}
    ensures (queue + [o])[..|queue|] == queue
  {
  }

  lemma StaysInOrder(queue: seq<Operation>, remaining: seq<Operation>, i: nat)
    requires i < |queue| && InOrder(queue) && InOrder(remaining) && Held(remaining) <= Held(queue[..i])
    ensures InOrder(remaining + [queue[i]])
  {
    forall k | 0 <= k < |remaining|
      ensures NotAfter(remaining[k], queue[i])
    {
      assert remaining[k] in Held(remaining);
      var j :| 0 <= j < i && queue[..i][j] == remaining[k];
      assert NotAfter(queue[j], queue[i]);
    }
  }
}
