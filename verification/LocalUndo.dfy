/** Undoing and redoing a group of this replica's own changes. Both count every
    target of the group up by one; the operation that says so may be minted, and
    undoing a group and redoing it shows the same document again. */
module LocalUndo {
  import opened Ids
  import opened VersionVectors
  import opened Fragments
  import opened Histories
  import opened Indexes
  import opened Representation
  import opened Visibility
  import opened RemoteEdits
  import opened Delivery
  import opened LocalOperations
  import opened UndoHistories

  function TargetsOf(g: Group): seq<Identity> {
    g.inserted + g.deletions
  }

  /** The group names whole operations of `a`: all items of the operations it
      undoes, and operations whose deletions it lifts, each once. */
  ghost predicate GroupKnown(a: set<Operation>, g: Group) {
    && NoRepeats(TargetsOf(g)) && OperationKnown(a, g.id)
    && (forall t :: t in TargetsOf(g) ==> t.actor == g.id.actor)
    && (forall x :: x in g.inserted ==> ItemKnown(a, x))
    && (forall d :: d in g.deletions ==> OperationKnown(a, d))
    && (forall p, x, y :: p in a && InsertsId(p, x) && InsertsId(p, y) && x in TargetsOf(g) ==> y in TargetsOf(g))
  }

  ghost predicate ItemKnown(a: set<Operation>, x: Identity) {
    exists p :: p in a && InsertsId(p, x)
  }

  ghost predicate OperationKnown(a: set<Operation>, d: Identity) {
    exists p :: p in a && p.timestamp == d
  }

  // ---- Groups of operations ----------------------------------------------

  /** The identities an operation inserts, in the order of its runs. */
  function InsertedIds(recs: seq<InsertedRun>): seq<Identity> {
    if recs == [] then [] else InsertedIds(recs[..|recs| - 1]) + RunIdentities(recs[|recs| - 1])
  }

  function RunIdentities(r: InsertedRun): (ids: seq<Identity>)
    ensures |ids| == RunLength(r)
    ensures forall id :: id in ids <==> RunHolds(r, id)
  {
    var ids := seq(RunLength(r), j requires 0 <= j < RunLength(r) => Identity(r.origin.actor, r.origin.counter + j));
    assert forall id :: RunHolds(r, id) ==> ids[id.counter - r.origin.counter] == id;
    ids
  }

  lemma {:induction false} InsertedAre(recs: seq<InsertedRun>, id: Identity)
    ensures id in InsertedIds(recs) <==> exists k :: 0 <= k < |recs| && RunHolds(recs[k], id)
  {
    if recs != [] {
      var last := |recs| - 1;
      InsertedAre(recs[..last], id);
      if exists k :: 0 <= k < |recs| && RunHolds(recs[k], id) {
        var k :| 0 <= k < |recs| && RunHolds(recs[k], id);
        if k < last { assert recs[..last][k] == recs[k]; }
      }
    }
  }

  lemma {:induction false} InsertedOnce(recs: seq<InsertedRun>)
    requires forall j, k :: 0 <= j < k < |recs| ==> RunsApart(recs[j], recs[k])
    ensures NoRepeats(InsertedIds(recs))
  {
    if recs != [] {
      var last := |recs| - 1;
      InsertedOnce(recs[..last]);
      forall id | id in InsertedIds(recs[..last])
        ensures id !in RunIdentities(recs[last])
      {
        InsertedAre(recs[..last], id);
        var k :| 0 <= k < last && RunHolds(recs[..last][k], id);
        assert RunsApart(recs[k], recs[last]);
      }
      JoinApart(InsertedIds(recs[..last]), RunIdentities(recs[last]));
    }
  }

  lemma {:induction false} JoinApart(x: seq<Identity>, y: seq<Identity>)
    requires NoRepeats(x) && NoRepeats(y) && forall id :: id in x ==> id !in y
    ensures NoRepeats(x + y)
  {
    forall i, j | 0 <= i < j < |x + y|
      ensures (x + y)[i] != (x + y)[j]
    {
      if i < |x| { assert x[i] in x; }
      if j >= |x| { assert y[j - |x|] in y; }
    }
  }

  /** The group a local edit commits. */
  function GroupOf(o: Operation, retained: nat): Group
    requires o.Edit?
  {
    Group(o.timestamp, [o.timestamp], InsertedIds(o.inserts), if o.deletions == [] then [] else [o.timestamp], retained)
  }

  /** The replica knows the group of an operation it has applied. */
  lemma {:induction false} EditIsKnown(u: set<Operation>, a: set<Operation>, o: Operation, retained: nat)
    requires Honest(u) && a <= u && o in a && o.Edit?
    ensures GroupKnown(a, GroupOf(o, retained))
  {
    var g := GroupOf(o, retained);
    assert WellMinted(o, FirstCounter(o));
    InsertedOnce(o.inserts);
    OperationsAreNotItems(u, o, o);
    InsertedIff(o);
    hide InsertedIds, InsertsId;
    JoinApart(g.inserted, g.deletions);
    assert OperationKnown(a, o.timestamp);
    forall x | x in g.inserted
      ensures ItemKnown(a, x)
    {
      assert InsertsId(o, x);
    }
    forall p, x, y | p in a && InsertsId(p, x) && InsertsId(p, y) && x in TargetsOf(g)
      ensures y in TargetsOf(g)
    {
      GroupIsWhole(u, o, p, x, y);
    }
  }

  lemma {:induction false} InsertedIff(o: Operation)
    requires o.Edit?
    ensures forall x :: x in InsertedIds(o.inserts) <==> InsertsId(o, x)
  {
    forall x
      ensures x in InsertedIds(o.inserts) <==> InsertsId(o, x)
    {
      InsertedAre(o.inserts, x);
    }
  }

  lemma {:induction false} GroupIsWhole(u: set<Operation>, o: Operation, p: Operation, x: Identity, y: Identity)
    requires Honest(u) && o in u && o.Edit? && p in u && InsertsId(p, x) && InsertsId(p, y)
    requires x in InsertedIds(o.inserts) || x == o.timestamp
    ensures y in InsertedIds(o.inserts)
  {
    InsertedIff(o);
    hide InsertedIds;
    OperationsAreNotItems(u, p, o);
    ItemsAreUnique(u, p, o, x);
  }

  /** More operations do not make a known group unknown. */
  lemma {:induction false} KnownStays(u: set<Operation>, a: set<Operation>, b: set<Operation>, g: Group)
    requires Honest(u) && a <= b <= u && GroupKnown(a, g)
    ensures GroupKnown(b, g)
  {
    forall p, x, y | p in b && InsertsId(p, x) && InsertsId(p, y) && x in TargetsOf(g)
      ensures y in TargetsOf(g)
    {
      if x in g.inserted {
        assert ItemKnown(a, x);
        var q :| q in a && InsertsId(q, x);
        ItemsAreUnique(u, p, q, x);
      } else {
        assert OperationKnown(a, x);
        var q :| q in a && q.timestamp == x;
        OperationsAreNotItems(u, p, q);
      }
    }
    forall x | x in g.inserted
      ensures ItemKnown(b, x)
    {
      assert ItemKnown(a, x);
      var q :| q in a && InsertsId(q, x);
    }
    forall d | d in g.deletions
      ensures OperationKnown(b, d)
    {
      assert OperationKnown(a, d);
      var q :| q in a && q.timestamp == d;
    }
  }

  // ---- Counting up -------------------------------------------------------

  /** Every target's count goes up by one, no other count changes. */
  ghost predicate Raised(undo: seq<UndoEntry>, undo': seq<UndoEntry>, targets: seq<Identity>) {
    forall t :: MaxCount(undo', t) == MaxCount(undo, t) + if t in targets then 1 else 0
  }

  lemma {:induction false} CountOne(undo: seq<UndoEntry>, e: UndoEntry, t: Identity)
    ensures MaxCount(undo + [e], t) == if e.target == t then Max(MaxCount(undo, t), e.count) else MaxCount(undo, t)
  {
    assert (undo + [e])[..|undo|] == undo;
  }

  /** The counts of an undo or redo of these targets. */
  function CountsFor(undo: seq<UndoEntry>, targets: seq<Identity>): (r: seq<UndoCount>)
    ensures |r| == |targets|
  {
    seq(|targets|, i requires 0 <= i < |targets| => UndoCount(targets[i], MaxCount(undo, targets[i]) + 1))
  }

  function EntriesFor(undo: seq<UndoEntry>, targets: seq<Identity>, id: Identity): (r: seq<UndoEntry>)
    ensures |r| == |targets|
  {
    seq(|targets|, i requires 0 <= i < |targets| => UndoEntry(targets[i], id, MaxCount(undo, targets[i]) + 1))
  }

  /** Record one more undo or redo of every target. */
  method CountUp(undo: seq<UndoEntry>, targets: seq<Identity>, id: Identity) returns (counts: seq<UndoCount>, undo': seq<UndoEntry>)
    requires NoRepeats(targets)
    ensures counts == CountsFor(undo, targets) && undo' == undo + EntriesFor(undo, targets, id)
    ensures Raised(undo, undo', targets)
  {
    counts, undo' := [], undo;
    assert undo + EntriesFor(undo, targets, id)[..0] == undo;
    for i := 0 to |targets|
      invariant counts == CountsFor(undo, targets)[..i] && undo' == undo + EntriesFor(undo, targets, id)[..i]
      invariant Raised(undo, undo', targets[..i])
    {
      var t := targets[i];
      assert t !in targets[..i];
      var current := UndoCountOf(undo', t);
      var e := UndoEntry(t, id, current + 1);
      RaiseStep(undo, undo', targets, i, e);
      NextEntry(undo, targets, id, i);
      hide Raised, MaxCount, NoRepeats;
      counts := counts + [UndoCount(t, current + 1)];
      undo' := undo' + [e];
    }
    assert targets[..|targets|] == targets;
    assert CountsFor(undo, targets)[..|targets|] == CountsFor(undo, targets);
    assert EntriesFor(undo, targets, id)[..|targets|] == EntriesFor(undo, targets, id);
  }

  lemma {:induction false} NextEntry(undo: seq<UndoEntry>, targets: seq<Identity>, id: Identity, i: nat)
    requires i < |targets|
    ensures CountsFor(undo, targets)[..i + 1] == CountsFor(undo, targets)[..i] + [UndoCount(targets[i], MaxCount(undo, targets[i]) + 1)]
    ensures undo + EntriesFor(undo, targets, id)[..i + 1]
            == undo + EntriesFor(undo, targets, id)[..i] + [UndoEntry(targets[i], id, MaxCount(undo, targets[i]) + 1)]
  {
    hide MaxCount;
    assert EntriesFor(undo, targets, id)[..i + 1] == EntriesFor(undo, targets, id)[..i] + [EntriesFor(undo, targets, id)[i]];
  }

  lemma {:induction false} RaiseStep(undo: seq<UndoEntry>, undo': seq<UndoEntry>, targets: seq<Identity>, i: nat, e: UndoEntry)
    requires i < |targets| && targets[i] !in targets[..i] && Raised(undo, undo', targets[..i])
    requires e.target == targets[i] && e.count == MaxCount(undo', targets[i]) + 1
    ensures MaxCount(undo', targets[i]) == MaxCount(undo, targets[i])
    ensures Raised(undo, undo' + [e], targets[..i + 1])
  {
    assert targets[..i + 1] == targets[..i] + [targets[i]];
    forall t
      ensures MaxCount(undo' + [e], t) == MaxCount(undo, t) + if t in targets[..i + 1] then 1 else 0
    {
      CountOne(undo', e, t);
    }
  }

  /** The largest count recorded for an identity. */
  method UndoCountOf(undo: seq<UndoEntry>, t: Identity) returns (count: nat)
    ensures count == MaxCount(undo, t)
  {
    count := 0;
    assert undo[..0] == [];
    for i := 0 to |undo|
      invariant count == MaxCount(undo[..i], t)
    {
      assert undo[..i + 1][..i] == undo[..i];
      if undo[i].target == t && undo[i].count > count { count := undo[i].count; }
    }
    assert undo[..|undo|] == undo;
  }

  // ---- The operation -----------------------------------------------------

  lemma {:induction false} TargetKnown(u: set<Operation>, a: set<Operation>, v: Version, o: Operation, g: Group, t: Identity)
    requires Closed(u, a) && IsFrontier(a, v) && o.Undo? && o.version == v && GroupKnown(a, g) && t in TargetsOf(g)
    requires o.timestamp.actor == g.id.actor
    ensures t.actor == o.timestamp.actor && (Knows(u, o, t) || KnowsEdit(u, o, t))
  {
    if t in g.inserted {
      assert ItemKnown(a, t);
      var p :| p in a && InsertsId(p, t);
      assert p in u && Observed(o.version, p.timestamp) && InsertsId(p, t);
    } else {
      assert OperationKnown(a, t);
      var p :| p in a && p.timestamp == t;
      assert p in u && Observed(o.version, p.timestamp) && p.timestamp == t;
    }
  }

  lemma {:induction false} CountIsFor(undo: seq<UndoEntry>, targets: seq<Identity>, c: UndoCount)
    ensures c in CountsFor(undo, targets) <==> c.target in targets && c.count == MaxCount(undo, c.target) + 1
  {
    hide MaxCount;
    if c.target in targets && c.count == MaxCount(undo, c.target) + 1 {
      var i :| 0 <= i < |targets| && targets[i] == c.target;
      assert CountsFor(undo, targets)[i] == c;
    }
  }

  /** All items of an operation are counted alike. */
  lemma {:induction false} CountedAlike(u: set<Operation>, a: set<Operation>, undo: seq<UndoEntry>, g: Group, p: Operation, x: Identity, y: Identity, c: nat)
    requires Honest(u) && Closed(u, a) && UndoTold(a, undo) && GroupKnown(a, g) && p in u && InsertsId(p, x) && InsertsId(p, y)
    requires UndoCount(x, c) in CountsFor(undo, TargetsOf(g))
    ensures UndoCount(y, c) in CountsFor(undo, TargetsOf(g))
  {
    CountIsFor(undo, TargetsOf(g), UndoCount(x, c));
    CountIsFor(undo, TargetsOf(g), UndoCount(y, c));
    SameOperationSameCount(u, a, undo, p, x, y);
    if x in g.inserted {
      assert ItemKnown(a, x);
      var q :| q in a && InsertsId(q, x);
      ItemsAreUnique(u, p, q, x);
    } else {
      assert OperationKnown(a, x);
      var q :| q in a && q.timestamp == x;
      OperationsAreNotItems(u, p, q);
    }
  }

  lemma {:induction false} UndoIsMinted(u: set<Operation>, a: set<Operation>, undo: seq<UndoEntry>, v: Version, next: nat, actor: ActorId,
                                        g: Group, o: Operation)
    requires Honest(u) && Closed(u, a) && IsFrontier(a, v) && UndoTold(a, undo) && OwnApplied(u, a, actor) && ValidActor(actor)
    requires next > 0 && (forall b :: b in v ==> v[b] < next) && GroupKnown(a, g) && g.id.actor == actor
    requires o == Undo(Identity(actor, next), v, CountsFor(undo, TargetsOf(g)))
    ensures MintedFrom(u, a, v, o) && (Accepted(o) <==> WithinLimits(o))
  {
    assert WellMinted(o, FirstCounter(o));
    hide Honest, Closed, IsFrontier, Accepted, WithinLimits, UndoTold;
    UndoTargetsKnown(u, a, undo, v, g, o);
    UndoIsNew(u, a, v, next, actor, o);
    MintKeepsHonest(u, a, v, o);
    HonestIsAccepted(u + {o}, o);
  }

  lemma {:induction false} UndoTargetsKnown(u: set<Operation>, a: set<Operation>, undo: seq<UndoEntry>, v: Version, g: Group, o: Operation)
    requires Honest(u) && Closed(u, a) && IsFrontier(a, v) && UndoTold(a, undo) && GroupKnown(a, g)
    requires o.Undo? && o.version == v && o.counts == CountsFor(undo, TargetsOf(g)) && o.timestamp.actor == g.id.actor
    ensures TargetsKnown(u, o)
  {
    hide Honest, Closed, IsFrontier, UndoTold, GroupKnown;
    forall t | t in o.counts
      ensures t.target.actor == o.timestamp.actor && (Knows(u, o, t.target) || KnowsEdit(u, o, t.target))
    {
      CountIsFor(undo, TargetsOf(g), t);
      TargetKnown(u, a, v, o, g, t.target);
    }
    forall p, x, y, c | p in u && InsertsId(p, x) && InsertsId(p, y) && UndoCount(x, c) in o.counts
      ensures UndoCount(y, c) in o.counts
    {
      CountedAlike(u, a, undo, g, p, x, y, c);
    }
  }

  lemma {:induction false} UndoIsNew(u: set<Operation>, a: set<Operation>, v: Version, next: nat, actor: ActorId, o: Operation)
    requires Honest(u) && Closed(u, a) && IsFrontier(a, v) && OwnApplied(u, a, actor)
    requires (forall b :: b in v ==> v[b] < next) && o.timestamp == Identity(actor, next)
    ensures o !in u
  {
    forall p | p in u && p.timestamp.actor == actor
      ensures p.timestamp.counter < next
    {
      assert Observed(v, p.timestamp) && FirstCounter(p) > 0 && WellMinted(p, FirstCounter(p));
    }
  }

  /** Undo or redo a group: one more count for each of its targets, and an
      operation that tells every replica. */
  method EmitUndo(ghost u: set<Operation>, ghost a: set<Operation>, actor: ActorId, frags: seq<Fragment>, index: RunIndex, undo: seq<UndoEntry>,
                  v: Version, next: nat, g: Group)
    returns (o: Operation, frags': seq<Fragment>, undo': seq<UndoEntry>, v': Version, next': nat)
    requires IsCurrent(u, a, frags, index, undo, v, next) && next > 0 && ValidActor(actor) && OwnApplied(u, a, actor) && GroupKnown(a, g)
    requires g.id.actor == actor
    ensures o.Undo? && MintedFrom(u, a, v, o) && o.timestamp.actor == actor
    ensures Accepted(o) <==> |TargetsOf(g)| <= MAX_PARTS
    ensures IsCurrent(u + {o}, a + {o}, frags', index, undo', v', next') && OwnApplied(u + {o}, a + {o}, actor)
    ensures Raised(undo, undo', TargetsOf(g))
    ensures forall t :: MaxCount(undo', t) == MaxCount(undo, t) + if t in g.inserted || t in g.deletions then 1 else 0
    ensures Items(frags') == ShowAll(Items(frags), undo')
  {
    CurrentParts(u, a, frags, index, undo, v, next);
    CurrentState(u, a, frags, index, undo, v, next);
    GroupOnce(a, g);
    hide *;
    var ts := Identity(actor, next);
    var counts, recorded := CountUp(undo, TargetsOf(g), ts);
    o := Undo(ts, v, counts);
    UndoIsMinted(u, a, undo, v, next, actor, g, o);
    UndoIsAsLarge(undo, g, o);
    EmittedIsNext(u, a, v, o);
    StateGrows(u, a, frags, index, undo, v, o);
    frags', undo' := ApplyUndo(u + {o}, a, frags, index, undo, o);
    RecordedIs(undo, TargetsOf(g), ts, o);
    StateParts(u + {o}, a + {o}, frags', index, undo');
    CurrentAfter(u, a, frags, index, undo, v, next, o, frags', index, undo');
    OwnAppliedAfter(u, a, actor, o);
    GroupRaised(undo, undo', g);
    v', next' := Observe(v, ts), next + 1;
  }

  lemma {:induction false} GroupRaised(undo: seq<UndoEntry>, undo': seq<UndoEntry>, g: Group)
    requires Raised(undo, undo', TargetsOf(g))
    ensures forall t :: MaxCount(undo', t) == MaxCount(undo, t) + if t in g.inserted || t in g.deletions then 1 else 0
  {
    hide MaxCount;
  }

  lemma {:induction false} UndoIsAsLarge(undo: seq<UndoEntry>, g: Group, o: Operation)
    requires o.Undo? && o.counts == CountsFor(undo, TargetsOf(g))
    ensures WithinLimits(o) <==> |TargetsOf(g)| <= MAX_PARTS
  {
  }

  lemma {:induction false} CurrentState(u: set<Operation>, a: set<Operation>, frags: seq<Fragment>, index: RunIndex, undo: seq<UndoEntry>,
                                        v: Version, next: nat)
    requires IsCurrent(u, a, frags, index, undo, v, next)
    ensures State(u, a, frags, index, undo)
  {
  }

  lemma {:induction false} GroupOnce(a: set<Operation>, g: Group)
    requires GroupKnown(a, g)
    ensures NoRepeats(TargetsOf(g))
  {
  }

  lemma {:induction false} StateGrows(u: set<Operation>, a: set<Operation>, frags: seq<Fragment>, index: RunIndex, undo: seq<UndoEntry>, v: Version, o: Operation)
    requires State(u, a, frags, index, undo) && MintedFrom(u, a, v, o)
    ensures State(u + {o}, a, frags, index, undo)
  {
    MintKeepsHonest(u, a, v, o);
  }

  lemma {:induction false} StateParts(u: set<Operation>, a: set<Operation>, frags: seq<Fragment>, index: RunIndex, undo: seq<UndoEntry>)
    requires State(u, a, frags, index, undo)
    ensures NonEmptyRuns(frags) && Represents(a, Items(frags), undo) && (index.valid ==> Coherent(frags, index))
  {
  }

  lemma {:induction false} RecordedIs(undo: seq<UndoEntry>, targets: seq<Identity>, id: Identity, o: Operation)
    requires o.Undo? && o.timestamp == id && o.counts == CountsFor(undo, targets)
    ensures EntriesOf(o) == EntriesFor(undo, targets, id)
  {
    hide MaxCount;
  }

  // ---- Undo and redo cancel ----------------------------------------------

  /** How many of the groups name `t`. */
  function Hits(groups: seq<Group>, t: Identity): nat {
    if groups == [] then 0
    else Hits(groups[..|groups| - 1], t) + if t in TargetsOf(groups[|groups| - 1]) then 1 else 0
  }

  /** Undoing and redoing these groups, one after the other, led from `undo` to `undo'`. */
  ghost predicate RaisedBy(undo: seq<UndoEntry>, undo': seq<UndoEntry>, groups: seq<Group>) {
    forall t :: MaxCount(undo', t) == MaxCount(undo, t) + Hits(groups, t)
  }

  lemma {:induction false} RaisedOnce(undo: seq<UndoEntry>, mid: seq<UndoEntry>, undo': seq<UndoEntry>, groups: seq<Group>, g: Group)
    requires RaisedBy(undo, mid, groups) && Raised(mid, undo', TargetsOf(g))
    ensures RaisedBy(undo, undo', groups + [g])
  {
    hide TargetsOf;
    forall t
      ensures Hits(groups + [g], t) == Hits(groups, t) + if t in TargetsOf(g) then 1 else 0
    {
      assert (groups + [g])[..|groups|] == groups;
    }
  }

  lemma {:induction false} HitsConcat(x: seq<Group>, y: seq<Group>, t: Identity)
    ensures Hits(x + y, t) == Hits(x, t) + Hits(y, t)
    decreases |y|
  {
    if y == [] {
      assert x + y == x;
    } else {
      HitsConcat(x, y[..|y| - 1], t);
      assert (x + y)[..|x + y| - 1] == x + y[..|y| - 1];
    }
  }

  lemma {:induction false} HitsReversed(x: seq<Group>, t: Identity)
    ensures Hits(Reversed(x), t) == Hits(x, t)
  {
    if x != [] {
      HitsReversed(x[..|x| - 1], t);
      HitsConcat([x[|x| - 1]], Reversed(x[..|x| - 1]), t);
      assert [x[|x| - 1]][..0] == [];
    }
  }

  function Reversed(x: seq<Group>): seq<Group> {
    if x == [] then [] else [x[|x| - 1]] + Reversed(x[..|x| - 1])
  }

  /** Undoing some groups and redoing them in reverse raises every count by two for
      each group that names it, and the document shows what it showed before. */
  lemma {:induction false} UndoRedoCancels(items: seq<Item>, undo: seq<UndoEntry>, undo': seq<UndoEntry>, groups: seq<Group>)
    requires RaisedBy(undo, undo', groups + Reversed(groups))
    ensures forall t :: MaxCount(undo', t) == MaxCount(undo, t) + 2 * Hits(groups, t)
    ensures ShowAll(items, undo') == ShowAll(items, undo)
  {
    forall t
      ensures MaxCount(undo', t) == MaxCount(undo, t) + 2 * Hits(groups, t)
    {
      HitsConcat(groups, Reversed(groups), t);
      HitsReversed(groups, t);
    }
    forall t
      ensures Undone(undo', t) == Undone(undo, t)
    {
      assert (MaxCount(undo, t) + 2 * Hits(groups, t)) % 2 == MaxCount(undo, t) % 2;
    }
    hide Undone, MaxCount;
  }

  /** Showing again replaces what was shown. */
  lemma {:induction false} ShownAgain(items: seq<Item>, undo: seq<UndoEntry>, undo': seq<UndoEntry>)
    ensures ShowAll(ShowAll(items, undo), undo') == ShowAll(items, undo')
  {
    hide ItemVisible;
  }
}
