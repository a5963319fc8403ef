/** Several replicas over one growing history: what deliveries and mints keep of
    each, and why the order, the batching and the repetition of deliveries do not
    show in any document. */
module Networks {
  import opened Ids
  import opened VersionVectors
  import opened Fragments
  import opened Histories
  import opened Indexes
  import opened Representation
  import opened RemoteEdits
  import opened Delivery
  import opened LocalOperations

  /** One replica's state. The operations it holds back go with it as a set. */
  datatype Peer = Peer(
    actor: ActorId,
    frags: seq<Fragment>,
    index: RunIndex,
    undo: seq<UndoEntry>,
    version: Version,
    next: nat,
    applied: set<Operation>,
    waiting: set<Operation>)

  /** Everything this replica has been given and not refused. */
  ghost function Known(p: Peer): set<Operation> {
    p.applied + p.waiting
  }

  ghost predicate UpToDate(u: set<Operation>, p: Peer) {
    IsCurrent(u, p.applied, p.frags, p.index, p.undo, p.version, p.next)
  }

  ghost predicate Waits(u: set<Operation>, p: Peer) {
    p.waiting <= u && forall o :: o in p.waiting ==> !Ready(u, p.applied, o)
  }

  ghost predicate OwnsActor(u: set<Operation>, p: Peer) {
    ValidActor(p.actor) && p.next > 0 && OwnApplied(u, p.applied, p.actor)
  }

  ghost predicate Kept(u: set<Operation>, p: Peer) {
    UpToDate(u, p) && Waits(u, p) && OwnsActor(u, p)
  }

  /** A batch was offered and nothing in it refused. */
  ghost predicate Delivers(u: set<Operation>, p: Peer, ops: set<Operation>, q: Peer) {
    && q.actor == p.actor && UpToDate(u, q) && Waits(u, q)
    && Known(q) == Known(p) + ops && p.applied <= q.applied && p.next <= q.next
  }

  /** The replica emitted an operation of its own: an edit, an undo or a redo. */
  ghost predicate Mints(u: set<Operation>, p: Peer, o: Operation, q: Peer) {
    && MintedFrom(u, p.applied, p.version, o) && o.timestamp.actor == p.actor
    && UpToDate(u + {o}, q) && OwnsActor(u + {o}, q)
    && q.actor == p.actor && q.applied == p.applied + {o} && q.waiting == p.waiting
  }

  // ---- What each step keeps ----------------------------------------------

  lemma {:induction false} DeliveryKeeps(u: set<Operation>, p: Peer, ops: set<Operation>, q: Peer)
    requires Kept(u, p) && Delivers(u, p, ops, q)
    ensures Kept(u, q)
  {
    hide UpToDate, Waits;
  }

  /** The new operation is seen by none of the others, so nothing waiting moves. */
  lemma {:induction false} MintKeeps(u: set<Operation>, p: Peer, o: Operation, q: Peer)
    requires Kept(u, p) && Mints(u, p, o, q)
    ensures Kept(u + {o}, q)
  {
    hide UpToDate, OwnsActor, MintedFrom, Ready;
    HonestParts(u, p);
    forall w | w in p.waiting
      ensures !Ready(u + {o}, p.applied + {o}, w)
    {
      StaysBlocked(u, p.applied, p.version, o, w);
    }
  }

  lemma {:induction false} StaysBlocked(u: set<Operation>, a: set<Operation>, v: Version, o: Operation, w: Operation)
    requires Honest(u) && MintedFrom(u, a, v, o) && w in u && !Ready(u, a, w)
    ensures !Ready(u + {o}, a + {o}, w)
  {
    hide Honest, WellMinted, Closed, IsFrontier;
    var blocked :| blocked in u && Observed(w.version, blocked.timestamp) && blocked !in a;
    assert blocked in u + {o} && blocked !in a + {o};
  }

  lemma {:induction false} HonestParts(u: set<Operation>, p: Peer)
    requires UpToDate(u, p)
    ensures Honest(u) && Closed(u, p.applied) && IsFrontier(p.applied, p.version)
  {
  }

  /** Another replica's new operation takes nothing from this one. */
  lemma {:induction false} OthersStay(u: set<Operation>, p: Peer, o: Operation, q: Peer, r: Peer)
    requires Kept(u, p) && Mints(u, p, o, q) && Kept(u, r) && r.actor != p.actor
    ensures Kept(u + {o}, r)
  {
    hide *;
    KeptParts(u, p);
    KeptParts(u, r);
    MintsParts(u, p, o, q);
    HonestParts(u, p);
    HonestParts(u, r);
    MintingElsewhere(u, p.applied, p.version, o, r.applied);
    UpToDateStill(u, o, r);
    WaitsStill(u, o, r);
    OwnsStillActor(u, p, o, r);
    KeptIs(u + {o}, r);
  }

  lemma {:induction false} KeptParts(u: set<Operation>, p: Peer)
    requires Kept(u, p)
    ensures UpToDate(u, p) && Waits(u, p) && OwnsActor(u, p)
  {
    hide UpToDate, Waits, OwnsActor;
  }

  lemma {:induction false} KeptIs(u: set<Operation>, p: Peer)
    requires UpToDate(u, p) && Waits(u, p) && OwnsActor(u, p)
    ensures Kept(u, p)
  {
    hide UpToDate, Waits, OwnsActor;
  }

  lemma {:induction false} MintsParts(u: set<Operation>, p: Peer, o: Operation, q: Peer)
    requires Mints(u, p, o, q)
    ensures MintedFrom(u, p.applied, p.version, o) && o.timestamp.actor == p.actor
  {
    hide UpToDate, OwnsActor, MintedFrom;
  }

  lemma {:induction false} UpToDateStill(u: set<Operation>, o: Operation, r: Peer)
    requires UpToDate(u, r) && Honest(u + {o}) && Closed(u + {o}, r.applied)
    ensures UpToDate(u + {o}, r)
  {
    hide Honest, Closed, Represents, IndexKept, Unspent, NonEmptyRuns;
  }

  lemma {:induction false} WaitsStill(u: set<Operation>, o: Operation, r: Peer)
    requires Waits(u, r) && forall w :: w in u ==> (Ready(u + {o}, r.applied, w) <==> Ready(u, r.applied, w))
    ensures Waits(u + {o}, r)
  {
    hide Ready;
  }

  lemma {:induction false} OwnsStillActor(u: set<Operation>, p: Peer, o: Operation, r: Peer)
    requires OwnsActor(u, r) && o.timestamp.actor == p.actor && r.actor != p.actor
    ensures OwnsActor(u + {o}, r)
  {
  }

  // ---- Documents depend on what was given only ---------------------------

  lemma {:induction false} KeptIsGreatest(u: set<Operation>, p: Peer)
    requires Kept(u, p)
    ensures IsGreatestClosed(u, Known(p), p.applied)
  {
    HonestParts(u, p);
    SettledIsGreatest(u, p.applied, p.waiting);
  }

  /** Two replicas that were given the same operations show the same document and
      the same version, whatever happened in between. */
  lemma {:induction false} SameKnownSameDocument(u: set<Operation>, p: Peer, q: Peer)
    requires Kept(u, p) && Kept(u, q) && Known(p) == Known(q)
    ensures p.applied == q.applied && Items(p.frags) == Items(q.frags) && p.version == q.version
  {
    KeptIsGreatest(u, p);
    KeptIsGreatest(u, q);
    GreatestIsUnique(u, Known(p), p.applied, q.applied);
    RepresentedParts(u, p);
    RepresentedParts(u, q);
    Convergence(u, p.applied, Items(p.frags), p.undo, Items(q.frags), q.undo);
    FrontierIsUnique(p.applied, p.version, q.version);
    hide *;
  }

  lemma {:induction false} RepresentedParts(u: set<Operation>, p: Peer)
    requires UpToDate(u, p)
    ensures Honest(u) && p.applied <= u && Represents(p.applied, Items(p.frags), p.undo) && IsFrontier(p.applied, p.version)
  {
  }

  /** A replica that was given everything has applied everything. */
  lemma {:induction false} AllGivenAllApplied(u: set<Operation>, p: Peer)
    requires Kept(u, p) && Known(p) == u
    ensures p.applied == u && p.waiting == {}
  {
    KeptIsGreatest(u, p);
    assert Closed(u, u);
    assert u <= p.applied;
    forall o | o in p.waiting
      ensures Ready(u, p.applied, o)
    {
    }
  }

  // ---- Runs of deliveries ------------------------------------------------

  /** A replica's states as batch after batch is offered. */
  ghost predicate DeliveryRun(u: set<Operation>, states: seq<Peer>, batches: seq<set<Operation>>) {
    |states| == |batches| + 1 && forall i :: 0 <= i < |batches| ==> Delivers(u, states[i], batches[i], states[i + 1])
  }

  ghost function Offered(batches: seq<set<Operation>>): set<Operation> {
    if batches == [] then {} else Offered(batches[..|batches| - 1]) + batches[|batches| - 1]
  }

  lemma {:induction false} DeliveryRunKeeps(u: set<Operation>, states: seq<Peer>, batches: seq<set<Operation>>)
    requires DeliveryRun(u, states, batches) && Kept(u, states[0])
    ensures Kept(u, states[|batches|]) && Known(states[|batches|]) == Known(states[0]) + Offered(batches)
    decreases |batches|
  {
    hide Kept, UpToDate, Waits;
    if batches != [] {
      var n := |batches| - 1;
      assert DeliveryRun(u, states[..n + 1], batches[..n]);
      DeliveryRunKeeps(u, states[..n + 1], batches[..n]);
      DeliveryKeeps(u, states[n], batches[n], states[n + 1]);
    }
  }

  /** Order, batching and repetition do not matter: two runs that start from the
      same knowledge and are offered the same operations in all end with the same
      document and version. */
  lemma {:induction false} DeliveryIsOrderIndependent(u: set<Operation>, xs: seq<Peer>, bs: seq<set<Operation>>,
                                                      ys: seq<Peer>, cs: seq<set<Operation>>)
    requires DeliveryRun(u, xs, bs) && DeliveryRun(u, ys, cs)
    requires Kept(u, xs[0]) && Kept(u, ys[0]) && Known(xs[0]) == Known(ys[0]) && Offered(bs) == Offered(cs)
    ensures xs[|bs|].applied == ys[|cs|].applied && xs[|bs|].version == ys[|cs|].version
    ensures Items(xs[|bs|].frags) == Items(ys[|cs|].frags)
  {
    hide *;
    DeliveryRunKeeps(u, xs, bs);
    DeliveryRunKeeps(u, ys, cs);
    RunLengths(u, xs, bs);
    RunLengths(u, ys, cs);
    SameKnownSameDocument(u, xs[|bs|], ys[|cs|]);
  }

  lemma {:induction false} RunLengths(u: set<Operation>, states: seq<Peer>, batches: seq<set<Operation>>)
    requires DeliveryRun(u, states, batches)
    ensures |states| == |batches| + 1
  {
  }

  // ---- Systems of replicas -----------------------------------------------

  /** All operations minted so far, and the replicas by actor. */
  datatype System = System(minted: set<Operation>, peers: map<ActorId, Peer>)

  ghost predicate SystemKept(s: System) {
    Honest(s.minted) && forall a :: a in s.peers ==> s.peers[a].actor == a && Kept(s.minted, s.peers[a])
  }

  /** One replica takes a batch of operations minted anywhere. */
  ghost predicate DeliverStep(s: System, t: System, a: ActorId, ops: set<Operation>) {
    && a in s.peers && ops <= s.minted && t.minted == s.minted && t.peers.Keys == s.peers.Keys
    && Delivers(s.minted, s.peers[a], ops, t.peers[a])
    && forall b :: b in s.peers && b != a ==> t.peers[b] == s.peers[b]
  }

  /** One replica mints an operation. */
  ghost predicate MintStep(s: System, t: System, a: ActorId, o: Operation) {
    && a in s.peers && t.minted == s.minted + {o} && t.peers.Keys == s.peers.Keys
    && Mints(s.minted, s.peers[a], o, t.peers[a])
    && forall b :: b in s.peers && b != a ==> t.peers[b] == s.peers[b]
  }

  ghost predicate SystemStep(s: System, t: System) {
    || (exists a, ops :: DeliverStep(s, t, a, ops))
    || (exists a, o :: MintStep(s, t, a, o))
  }

  ghost predicate SystemRun(states: seq<System>) {
    states != [] && forall i :: 0 < i < |states| ==> SystemStep(states[i - 1], states[i])
  }

  lemma {:induction false} StepKeepsSystem(s: System, t: System)
    requires SystemKept(s) && SystemStep(s, t)
    ensures SystemKept(t)
  {
    hide Kept, Honest, Mints, Delivers;
    if exists a, ops :: DeliverStep(s, t, a, ops) {
      var a, ops :| DeliverStep(s, t, a, ops);
      DeliveryKeeps(s.minted, s.peers[a], ops, t.peers[a]);
      DeliversTo(s.minted, s.peers[a], ops, t.peers[a]);
    } else {
      var a, o :| MintStep(s, t, a, o);
      var p, q := s.peers[a], t.peers[a];
      MintKeeps(s.minted, p, o, q);
      MintsHonest(s.minted, p, o, q);
      forall b | b in t.peers && b != a
        ensures Kept(t.minted, t.peers[b])
      {
        OthersStay(s.minted, p, o, q, s.peers[b]);
      }
    }
  }

  lemma {:induction false} DeliversTo(u: set<Operation>, p: Peer, ops: set<Operation>, q: Peer)
    requires Delivers(u, p, ops, q)
    ensures q.actor == p.actor
  {
    hide UpToDate, Waits;
  }

  lemma {:induction false} MintsHonest(u: set<Operation>, p: Peer, o: Operation, q: Peer)
    requires Kept(u, p) && Mints(u, p, o, q)
    ensures Honest(u + {o}) && q.actor == p.actor
  {
    hide UpToDate, Waits, OwnsActor, MintedFrom, Honest;
    HonestParts(u, p);
    MintKeepsHonest(u, p.applied, p.version, o);
  }

  lemma {:induction false} RunKeepsSystem(states: seq<System>)
    requires SystemRun(states) && SystemKept(states[0])
    ensures SystemKept(states[|states| - 1])
    decreases |states|
  {
    hide SystemKept, SystemStep;
    if |states| > 1 {
      var init := states[..|states| - 1];
      forall i | 0 < i < |init|
        ensures SystemStep(init[i - 1], init[i])
      {
        assert init[i - 1] == states[i - 1] && init[i] == states[i];
      }
      RunKeepsSystem(init);
      StepKeepsSystem(states[|states| - 2], states[|states| - 1]);
    }
  }

  /** In every state any run of mints and deliveries reaches, replicas that were
      given the same operations agree, and those given all operations have applied
      all of them. */
  lemma {:induction false} ReplicasConverge(states: seq<System>, a: ActorId, b: ActorId)
    requires SystemRun(states) && SystemKept(states[0])
    requires var s := states[|states| - 1]; a in s.peers && b in s.peers && Known(s.peers[a]) == Known(s.peers[b])
    ensures var s := states[|states| - 1];
            && Items(s.peers[a].frags) == Items(s.peers[b].frags) && s.peers[a].version == s.peers[b].version
            && s.peers[a].applied == s.peers[b].applied
            && (Known(s.peers[a]) == s.minted ==> s.peers[a].applied == s.minted)
  {
    var s := states[|states| - 1];
    RunKeepsSystem(states);
    hide SystemRun, Kept;
    SameKnownSameDocument(s.minted, s.peers[a], s.peers[b]);
    if Known(s.peers[a]) == s.minted {
      AllGivenAllApplied(s.minted, s.peers[a]);
    }
  }

  /** In every such state, a replica's indexes are valid and have exactly the rows
      of its document, unless it has published so many runs that a handle might be
      missing. */
  lemma {:induction false} IndexesStayValid(states: seq<System>, a: ActorId)
    requires SystemRun(states) && SystemKept(states[0]) && a in states[|states| - 1].peers
    ensures var p := states[|states| - 1].peers[a];
            HandleBound(p.applied) < U64 ==> p.index.valid && Coherent(p.frags, p.index)
  {
    var s := states[|states| - 1];
    RunKeepsSystem(states);
    hide SystemRun, Kept;
    KeptParts(s.minted, s.peers[a]);
    IndexIsValid(s.minted, s.peers[a]);
  }

  lemma {:induction false} IndexIsValid(u: set<Operation>, p: Peer)
    requires UpToDate(u, p)
    ensures HandleBound(p.applied) < U64 ==> p.index.valid && Coherent(p.frags, p.index)
  {
    hide HandleBound, Coherent;
  }
}
