/** Operations, and the histories honest replicas produce.

    A history is the set of all operations ever minted. `Honest` says what the
    minting code guarantees of it; `Closed` sets are what a replica can have
    applied; `IsFrontier` is what its version vector then says. */
module Histories {
  import opened Ids
  import opened VersionVectors
  import opened FugueOrder
  import opened Fragments

  /** A run as an operation carries it. */
  datatype InsertedRun = InsertedRun(origin: Identity, link: Link, text: seq<Scalar>, marker: bool)

  /** Consecutive item identities of one actor. */
  datatype DeletionRun = DeletionRun(first: Identity, count: nat)

  datatype UndoCount = UndoCount(target: Identity, count: nat)

  /** The identity of an edit also marks its tombstones. Of the ranges it replaced
      for its author, only how many there were matters to others. */
  datatype Operation =
    | Edit(timestamp: Identity, version: Version, markerEdit: bool,
           inserts: seq<InsertedRun>, deletions: seq<DeletionRun>, ranges: nat)
    | Undo(timestamp: Identity, version: Version, counts: seq<UndoCount>)

  function RunFragment(r: InsertedRun): Fragment {
    Fragment(r.origin, r.link, r.text, [], true, r.marker)
  }

  function RunLength(r: InsertedRun): nat {
    Length(RunFragment(r))
  }

  predicate InDeletion(r: DeletionRun, id: Identity) {
    id.actor == r.first.actor && r.first.counter <= id.counter < r.first.counter + r.count
  }

  /** The item at offset `j` of the `k`-th inserted run is `n` with content `c`. */
  predicate Inserts(o: Operation, k: nat, j: nat, n: Node, c: Option<Scalar>) {
    && o.Edit? && k < |o.inserts| && j < RunLength(o.inserts[k])
    && n == ItemOf(RunFragment(o.inserts[k]), j).node
    && c == ItemOf(RunFragment(o.inserts[k]), j).content
  }

  predicate InsertsId(o: Operation, id: Identity) {
    o.Edit? && exists k :: 0 <= k < |o.inserts| && RunHolds(o.inserts[k], id)
  }

  predicate RunHolds(r: InsertedRun, id: Identity) {
    id.actor == r.origin.actor && r.origin.counter <= id.counter < r.origin.counter + RunLength(r)
  }

  predicate Deletes(o: Operation, id: Identity) {
    o.Edit? && exists k :: 0 <= k < |o.deletions| && InDeletion(o.deletions[k], id)
  }

  /** `id` is one of the markers the operation inserts. */
  predicate InsertsMarker(o: Operation, id: Identity) {
    o.Edit? && exists k :: 0 <= k < |o.inserts| && RunHolds(o.inserts[k], id) && o.inserts[k].marker
  }

  // ---- Validation --------------------------------------------------------

  /** How many ranges, runs, deletions or targets one operation may carry. */
  const MAX_PARTS: nat := 0x1_0000

  /** A link names usable items its author had observed; a left child's parent is
      its right origin. */
  predicate LinkAccepted(link: Link, frontier: Version) {
    && (link.parent.Some? ==> Usable(link.parent.value) && Observed(frontier, link.parent.value))
    && (link.rightOrigin.Some? ==> Usable(link.rightOrigin.value) && Observed(frontier, link.rightOrigin.value))
    && (link.side.Left? ==> link.parent.Some? && link.rightOrigin == link.parent)
  }

  /** A marker edit inserts or removes exactly one marker. */
  predicate MarkerShape(o: Operation)
    requires o.Edit?
  {
    o.markerEdit ==>
      && o.ranges == 0
      && (|| (|o.inserts| == 1 && o.deletions == [] && o.inserts[0].marker)
          || (o.inserts == [] && |o.deletions| == 1 && o.deletions[0].count == 1))
  }

  /** What a receiver checks of an operation on its own. */
  predicate Accepted(o: Operation) {
    Usable(o.timestamp) &&
    if o.Edit? then
      && MarkerShape(o) && o.ranges <= MAX_PARTS && |o.inserts| <= MAX_PARTS && |o.deletions| <= MAX_PARTS
      && (forall k :: 0 <= k < |o.inserts| ==>
            && Usable(o.inserts[k].origin) && RunLength(o.inserts[k]) > 0
            && (o.inserts[k].marker ==> o.markerEdit && o.inserts[k].text == [])
            && LinkAccepted(o.inserts[k].link, o.version))
      && (forall k :: 0 <= k < |o.deletions| ==> o.deletions[k].count > 0 && Usable(o.deletions[k].first))
    else
      && |o.counts| <= MAX_PARTS
      && (forall k :: 0 <= k < |o.counts| ==>
            Usable(o.counts[k].target) && o.counts[k].count > 0 && IdLess(o.counts[k].target, o.timestamp))
  }

  // ---- Honest histories --------------------------------------------------

  /** What minting fixes of an operation's own shape. */
  ghost predicate Formed(o: Operation) {
    ValidActor(o.timestamp.actor) &&
    if o.Edit? then
      && MarkerShape(o)
      && (forall k :: 0 <= k < |o.inserts| && o.inserts[k].marker ==> o.markerEdit && o.inserts[k].text == [])
      && (forall k :: 0 <= k < |o.deletions| ==> o.deletions[k].count > 0)
    else
      forall k :: 0 <= k < |o.counts| ==> o.counts[k].count > 0
  }

  /** Minting does not limit how many parts an operation has; receivers do. */
  predicate WithinLimits(o: Operation) {
    if o.Edit? then o.ranges <= MAX_PARTS && |o.inserts| <= MAX_PARTS && |o.deletions| <= MAX_PARTS
    else |o.counts| <= MAX_PARTS
  }

  /** An operation on its own: one reserved interval `[first, timestamp]` of its
      actor, the inserted runs disjoint parts of it below the timestamp, and
      everything the version covers below its start. */
  ghost predicate WellMinted(o: Operation, first: nat) {
    && 0 < first <= o.timestamp.counter && Formed(o)
    && (forall a :: a in o.version ==> o.version[a] < first)
    && (o.Edit? ==>
          && (forall k :: 0 <= k < |o.inserts| ==>
                && RunLength(o.inserts[k]) > 0
                && o.inserts[k].origin.actor == o.timestamp.actor
                && first <= o.inserts[k].origin.counter
                && o.inserts[k].origin.counter + RunLength(o.inserts[k]) <= o.timestamp.counter
                && (o.inserts[k].link.side.Left? ==>
                      o.inserts[k].link.parent.Some? && o.inserts[k].link.rightOrigin == o.inserts[k].link.parent))
          && (forall j, k :: 0 <= j < k < |o.inserts| ==> RunsApart(o.inserts[j], o.inserts[k])))
  }

  predicate RunsApart(r: InsertedRun, s: InsertedRun) {
    || r.origin.counter + RunLength(r) <= s.origin.counter
    || s.origin.counter + RunLength(s) <= r.origin.counter
  }

  /** The first counter of the operation's interval. */
  function FirstCounter(o: Operation): int {
    if o.Edit? then o.timestamp.counter - TotalLength(o.inserts) else o.timestamp.counter
  }

  function TotalLength(runs: seq<InsertedRun>): nat {
    if runs == [] then 0 else TotalLength(runs[..|runs| - 1]) + RunLength(runs[|runs| - 1])
  }

  /** `o` came before `p` and `p`'s author had applied it. */
  ghost predicate Precedes(o: Operation, p: Operation) {
    o.timestamp.counter < FirstCounter(p) && Observed(p.version, o.timestamp)
  }

  /** `id` is an item of some operation `o`'s author had applied. */
  ghost predicate Knows(u: set<Operation>, o: Operation, id: Identity) {
    exists p :: p in u && Observed(o.version, p.timestamp) && InsertsId(p, id)
  }

  ghost predicate LinksKnown(u: set<Operation>, o: Operation) {
    o.Edit? ==> forall k :: 0 <= k < |o.inserts| ==>
      && (o.inserts[k].link.parent.Some? ==> Knows(u, o, o.inserts[k].link.parent.value))
      && (o.inserts[k].link.rightOrigin.Some? ==> Knows(u, o, o.inserts[k].link.rightOrigin.value))
  }

  /** Deletions name applied items, of the kind the operation edits. */
  ghost predicate DeletionsKnown(u: set<Operation>, o: Operation) {
    forall id :: Deletes(o, id) ==>
      && Knows(u, o, id)
      && forall p :: p in u && InsertsId(p, id) ==> (InsertsMarker(p, id) <==> o.markerEdit)
  }

  /** An undo targets items and edits of its author's own that the author had
      applied, and counts all items of an operation alike. */
  ghost predicate TargetsKnown(u: set<Operation>, o: Operation) {
    o.Undo? ==>
      && (forall t :: t in o.counts ==>
            t.target.actor == o.timestamp.actor && (Knows(u, o, t.target) || KnowsEdit(u, o, t.target)))
      && (forall p, x, y, c ::
            (p in u && InsertsId(p, x) && InsertsId(p, y) && UndoCount(x, c) in o.counts) ==> UndoCount(y, c) in o.counts)
  }

  /** `id` is the identity of an operation `o`'s author had applied. */
  ghost predicate KnowsEdit(u: set<Operation>, o: Operation, id: Identity) {
    exists p :: p in u && Observed(o.version, p.timestamp) && p.timestamp == id
  }

  ghost predicate Honest(u: set<Operation>) {
    && (forall o :: o in u ==> FirstCounter(o) > 0 && WellMinted(o, FirstCounter(o)))
    && (forall o, p :: o in u && p in u && o != p && o.timestamp.actor == p.timestamp.actor ==>
          Precedes(o, p) || Precedes(p, o))
    && (forall o, a :: o in u && a in o.version ==>
          exists p :: p in u && p.timestamp == Identity(a, o.version[a]))
    && (forall o, p :: o in u && p in u && Observed(o.version, p.timestamp) ==> Covers(o.version, p.version))
    && (forall o :: o in u ==> LinksKnown(u, o) && DeletionsKnown(u, o) && TargetsKnown(u, o))
  }

  // ---- Closed sets and frontiers -----------------------------------------

  /** What a replica can have applied: everything its members depend on too. */
  ghost predicate Closed(u: set<Operation>, a: set<Operation>) {
    a <= u && forall o, p :: o in a && p in u && Observed(o.version, p.timestamp) ==> p in a
  }

  /** `v` is the frontier of `a`: it covers exactly up to the latest operation of
      each actor. */
  ghost predicate IsFrontier(a: set<Operation>, v: Version) {
    && (forall o :: o in a ==> Observed(v, o.timestamp))
    && (forall b :: b in v ==> exists o :: o in a && o.timestamp == Identity(b, v[b]))
  }

  /** The version vector is exact: it has observed an operation's identity if and
      only if the operation was applied. */
  lemma VersionIsExact(u: set<Operation>, a: set<Operation>, v: Version, p: Operation)
    requires Honest(u) && Closed(u, a) && IsFrontier(a, v) && p in u
    ensures Observed(v, p.timestamp) <==> p in a
  {
    if Observed(v, p.timestamp) {
      var b := p.timestamp.actor;
      assert FirstCounter(p) > 0 && WellMinted(p, FirstCounter(p));
      assert b in v;
      var o :| o in a && o.timestamp == Identity(b, v[b]);
      if o != p {
        assert Precedes(o, p) || Precedes(p, o);
        assert WellMinted(o, FirstCounter(o));
        assert Precedes(p, o);
      }
    }
  }

  /** An operation's version is covered exactly when all it depends on has been
      applied. */
  lemma ReadyIsClosed(u: set<Operation>, a: set<Operation>, v: Version, o: Operation)
    requires Honest(u) && Closed(u, a) && IsFrontier(a, v) && o in u
    ensures Covers(v, o.version) <==> forall p :: p in u && Observed(o.version, p.timestamp) ==> p in a
  {
    if Covers(v, o.version) {
      forall p | p in u && Observed(o.version, p.timestamp)
        ensures p in a
      {
        CoversGet(v, o.version, p.timestamp.actor);
        VersionIsExact(u, a, v, p);
      }
    }
    if forall p :: p in u && Observed(o.version, p.timestamp) ==> p in a {
      forall b | b in o.version
        ensures Get(v, b) >= o.version[b]
      {
        var p :| p in u && p.timestamp == Identity(b, o.version[b]);
        assert Observed(o.version, p.timestamp);
      }
    }
  }

  lemma CoversGet(v: Version, w: Version, a: ActorId)
    requires Covers(v, w)
    ensures Get(v, a) >= Get(w, a)
  {
  }

  /** Applying a ready operation keeps the set closed and the frontier exact. */
  lemma ApplyKeepsFrontier(u: set<Operation>, a: set<Operation>, v: Version, o: Operation)
    requires Honest(u) && Closed(u, a) && IsFrontier(a, v) && o in u && o !in a
    requires Covers(v, o.version)
    ensures Closed(u, a + {o})
    ensures IsFrontier(a + {o}, Observe(v, o.timestamp))
    ensures Join(Observe(v, o.timestamp), o.version) == Observe(v, o.timestamp)
  {
    ReadyIsClosed(u, a, v, o);
    VersionIsExact(u, a, v, o);
    ObserveExtends(a, v, o);
    var w := Observe(v, o.timestamp);
    forall b
      ensures Get(Join(w, o.version), b) == Get(w, b)
    {
      CoversGet(v, o.version, b);
    }
    Extensional(Join(w, o.version), w);
  }

  lemma ObserveExtends(a: set<Operation>, v: Version, o: Operation)
    requires IsFrontier(a, v) && !Observed(v, o.timestamp)
    ensures IsFrontier(a + {o}, Observe(v, o.timestamp))
  {
    var w := Observe(v, o.timestamp);
    forall b | b in w
      ensures exists p :: p in a + {o} && p.timestamp == Identity(b, w[b])
    {
      if b == o.timestamp.actor {
        assert o in a + {o} && o.timestamp == Identity(b, w[b]);
      } else {
        assert b in v && w[b] == v[b];
        var p :| p in a && p.timestamp == Identity(b, v[b]);
        assert p in a + {o};
      }
    }
    forall p | p in a + {o}
      ensures Observed(w, p.timestamp)
    {
      assert Get(w, p.timestamp.actor) >= Get(v, p.timestamp.actor);
    }
  }

  /** Item identities are never shared between operations. */
  lemma ItemsAreUnique(u: set<Operation>, o: Operation, p: Operation, id: Identity)
    requires Honest(u) && o in u && p in u && InsertsId(o, id) && InsertsId(p, id)
    ensures o == p
  {
    ItemInInterval(u, o, id);
    ItemInInterval(u, p, id);
    assert o == p || Precedes(o, p) || Precedes(p, o);
  }

  lemma ItemInInterval(u: set<Operation>, o: Operation, id: Identity)
    requires Honest(u) && o in u && InsertsId(o, id)
    ensures id.actor == o.timestamp.actor && FirstCounter(o) <= id.counter < o.timestamp.counter
  {
    assert WellMinted(o, FirstCounter(o));
    var k :| 0 <= k < |o.inserts| && RunHolds(o.inserts[k], id);
  }

  /** Known items are older than everything the operation mints. */
  lemma KnownIsOlder(u: set<Operation>, o: Operation, id: Identity)
    requires Honest(u) && o in u && Knows(u, o, id)
    ensures id.counter < FirstCounter(o)
  {
    assert WellMinted(o, FirstCounter(o));
    var p :| p in u && Observed(o.version, p.timestamp) && InsertsId(p, id);
    ItemInInterval(u, p, id);
  }

  /** Receivers accept an operation of an honest history exactly when it keeps to
      the limits. */
  lemma HonestIsAccepted(u: set<Operation>, o: Operation)
    requires Honest(u) && o in u
    ensures Accepted(o) <==> WithinLimits(o)
  {
    assert WellMinted(o, FirstCounter(o)) && LinksKnown(u, o) && DeletionsKnown(u, o) && TargetsKnown(u, o);
    if o.Edit? {
      forall k | 0 <= k < |o.inserts|
        ensures LinkAccepted(o.inserts[k].link, o.version)
      {
        var link := o.inserts[k].link;
        if link.parent.Some? { KnownIsUsable(u, o, link.parent.value); }
        if link.rightOrigin.Some? { KnownIsUsable(u, o, link.rightOrigin.value); }
      }
      forall k | 0 <= k < |o.deletions|
        ensures Usable(o.deletions[k].first)
      {
        assert InDeletion(o.deletions[k], o.deletions[k].first);
        assert Deletes(o, o.deletions[k].first);
        KnownIsUsable(u, o, o.deletions[k].first);
      }
    } else {
      forall k | 0 <= k < |o.counts|
        ensures Usable(o.counts[k].target) && IdLess(o.counts[k].target, o.timestamp)
      {
        TargetIsUsable(u, o, o.counts[k]);
      }
    }
  }

  lemma KnownIsUsable(u: set<Operation>, o: Operation, id: Identity)
    requires Honest(u) && o in u && Knows(u, o, id)
    ensures Usable(id) && Observed(o.version, id)
  {
    var p :| p in u && Observed(o.version, p.timestamp) && InsertsId(p, id);
    ItemInInterval(u, p, id);
    assert WellMinted(p, FirstCounter(p));
  }

  lemma TargetIsUsable(u: set<Operation>, o: Operation, t: UndoCount)
    requires Honest(u) && o in u && o.Undo? && t in o.counts
    ensures Usable(t.target) && IdLess(t.target, o.timestamp)
  {
    assert WellMinted(o, FirstCounter(o)) && TargetsKnown(u, o);
    if Knows(u, o, t.target) {
      KnownIsUsable(u, o, t.target);
      KnownIsOlder(u, o, t.target);
    } else {
      var p :| p in u && Observed(o.version, p.timestamp) && p.timestamp == t.target;
      assert WellMinted(p, FirstCounter(p));
    }
  }

  // ---- Minting -----------------------------------------------------------

  /** What a replica guarantees of an operation it mints: its version is the
      replica's own frontier, the replica has applied every operation of its own
      actor, and its interval starts above every counter it has observed. */
  ghost predicate MintedFrom(u: set<Operation>, a: set<Operation>, v: Version, o: Operation) {
    && Closed(u, a) && IsFrontier(a, v) && o !in u
    && o.version == v
    && FirstCounter(o) > 0 && WellMinted(o, FirstCounter(o))
    && (forall p :: p in u && p.timestamp.actor == o.timestamp.actor ==> p in a)
    && LinksKnown(u, o) && DeletionsKnown(u, o) && TargetsKnown(u, o)
  }

  /** No operation minted so far has observed the new one. */
  lemma NewIsUnseen(u: set<Operation>, a: set<Operation>, v: Version, o: Operation, p: Operation)
    requires Honest(u) && MintedFrom(u, a, v, o) && p in u
    ensures !Observed(p.version, o.timestamp)
  {
    var b := o.timestamp.actor;
    forall q | q in u && q.timestamp.actor == b
      ensures q.timestamp.counter < o.timestamp.counter
    {
      OwnIsOlder(u, a, v, o, q);
    }
    assert b in p.version ==> exists q :: q in u && q.timestamp == Identity(b, p.version[b]);
  }

  lemma OwnIsOlder(u: set<Operation>, a: set<Operation>, v: Version, o: Operation, q: Operation)
    requires Honest(u) && MintedFrom(u, a, v, o) && q in u && q.timestamp.actor == o.timestamp.actor
    ensures Precedes(q, o)
  {
    assert q in a;
    assert Observed(v, q.timestamp);
    assert FirstCounter(q) > 0 && WellMinted(q, FirstCounter(q));
    assert q.timestamp.actor in v;
  }

  /** Honest replicas keep the history honest: adding a minted operation
      preserves every one of its laws. */
  lemma MintKeepsHonest(u: set<Operation>, a: set<Operation>, v: Version, o: Operation)
    requires Honest(u) && MintedFrom(u, a, v, o)
    ensures Honest(u + {o})
    ensures Closed(u + {o}, a)
  {
    hide LinksKnown, DeletionsKnown, TargetsKnown, Precedes, WellMinted;
    var w := u + {o};
    forall p, q | p in w && q in w && p != q && p.timestamp.actor == q.timestamp.actor
      ensures Precedes(p, q) || Precedes(q, p)
    {
      if p == o { OwnIsOlder(u, a, v, o, q); }
      else if q == o { OwnIsOlder(u, a, v, o, p); }
    }
    forall p, b | p in w && b in p.version
      ensures exists q :: q in w && q.timestamp == Identity(b, p.version[b])
    {
      if p == o {
        var q :| q in a && q.timestamp == Identity(b, v[b]);
        assert q in w;
      } else {
        var q :| q in u && q.timestamp == Identity(b, p.version[b]);
        assert q in w;
      }
    }
    forall p, q | p in w && q in w && Observed(p.version, q.timestamp)
      ensures Covers(p.version, q.version)
    {
      if q == o {
        if p != o { NewIsUnseen(u, a, v, o, p); }
      } else if p == o {
        VersionIsExact(u, a, v, q);
        FrontierCovers(u, a, v, q);
      }
    }
    forall p | p in w
      ensures LinksKnown(w, p) && DeletionsKnown(w, p) && TargetsKnown(w, p)
    {
      MintKeepsKnown(u, a, v, o, p);
    }
    forall p, q | p in a && q in w && Observed(p.version, q.timestamp)
      ensures q in a
    {
      if q == o { NewIsUnseen(u, a, v, o, p); }
    }
  }

  lemma FrontierCovers(u: set<Operation>, a: set<Operation>, v: Version, q: Operation)
    requires Honest(u) && Closed(u, a) && IsFrontier(a, v) && q in a
    ensures Covers(v, q.version)
  {
    ReadyIsClosed(u, a, v, q);
  }

  lemma MintKeepsKnown(u: set<Operation>, a: set<Operation>, v: Version, o: Operation, p: Operation)
    requires Honest(u) && MintedFrom(u, a, v, o) && p in u + {o}
    ensures LinksKnown(u + {o}, p) && DeletionsKnown(u + {o}, p) && TargetsKnown(u + {o}, p)
  {
    var w := u + {o};
    assert LinksKnown(u, p) && DeletionsKnown(u, p) && TargetsKnown(u, p);
    forall id | Knows(u, p, id)
      ensures Knows(w, p, id)
    {
      var q :| q in u && Observed(p.version, q.timestamp) && InsertsId(q, id);
      assert q in w;
    }
    forall id | Deletes(p, id)
      ensures forall q :: q in w && InsertsId(q, id) ==> (InsertsMarker(q, id) <==> p.markerEdit)
    {
      assert Knows(u, p, id);
      NewItemsAreFresh(u, a, v, o, id);
    }
    MintKeepsTargets(u, a, v, o, p);
  }

  /** An identity some operation already mints is not one of the new items. */
  lemma NewItemsAreFresh(u: set<Operation>, a: set<Operation>, v: Version, o: Operation, id: Identity)
    requires Honest(u) && MintedFrom(u, a, v, o)
    requires exists q :: q in u && InsertsId(q, id)
    ensures !InsertsId(o, id)
  {
    var q :| q in u && InsertsId(q, id);
    ItemInInterval(u, q, id);
    if id.actor == o.timestamp.actor {
      OwnIsOlder(u, a, v, o, q);
    }
  }

  lemma MintKeepsTargets(u: set<Operation>, a: set<Operation>, v: Version, o: Operation, p: Operation)
    requires Honest(u) && MintedFrom(u, a, v, o) && p in u + {o}
    ensures TargetsKnown(u + {o}, p)
  {
    var w := u + {o};
    assert TargetsKnown(u, p);
    if p.Undo? {
      forall t | t in p.counts
        ensures Knows(w, p, t.target) || KnowsEdit(w, p, t.target)
        ensures !InsertsId(o, t.target)
      {
        if Knows(u, p, t.target) {
          var q :| q in u && Observed(p.version, q.timestamp) && InsertsId(q, t.target);
          assert q in w;
          NewItemsAreFresh(u, a, v, o, t.target);
        } else {
          var q :| q in u && Observed(p.version, q.timestamp) && q.timestamp == t.target;
          assert q in w;
          EditIsNoNewItem(u, a, v, o, q);
        }
      }
      forall q, x, y, c | q in w && InsertsId(q, x) && InsertsId(q, y) && UndoCount(x, c) in p.counts
        ensures UndoCount(y, c) in p.counts
      {
        assert !InsertsId(o, UndoCount(x, c).target);
      }
    }
  }

  lemma EditIsNoNewItem(u: set<Operation>, a: set<Operation>, v: Version, o: Operation, q: Operation)
    requires Honest(u) && MintedFrom(u, a, v, o) && q in u
    ensures !InsertsId(o, q.timestamp)
  {
    if q.timestamp.actor == o.timestamp.actor {
      OwnIsOlder(u, a, v, o, q);
    }
  }
}
