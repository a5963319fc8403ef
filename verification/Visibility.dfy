/** Visibility of runs. A replica computes it once per run, from the run's first
    identity; that is right for every item of the run because undo operations
    count all items of an operation alike and a run never spans two operations.
    After an undo only the runs its targets touch are recomputed. */
module Visibility {
  import opened Ids
  import opened FugueOrder
  import opened Fragments
  import opened Histories
  import opened SequenceOrder
  import opened Indexes
  import opened Representation

  predicate RunVisible(f: Fragment, undo: seq<UndoEntry>) {
    !Undone(undo, f.origin) && forall d :: d in f.deletions ==> Undone(undo, d)
  }

  method ComputeVisible(f: Fragment, undo: seq<UndoEntry>) returns (visible: bool)
    ensures visible == RunVisible(f, undo)
  {
    if Undone(undo, f.origin) { return false; }
    for i := 0 to |f.deletions|
      invariant forall d :: d in f.deletions[..i] ==> Undone(undo, d)
    {
      if !Undone(undo, f.deletions[i]) { return false; }
      assert f.deletions[..i + 1] == f.deletions[..i] + [f.deletions[i]];
    }
    assert f.deletions[..|f.deletions|] == f.deletions;
    return true;
  }

  // ---- Runs are uniform --------------------------------------------------

  /** All items of a run have the undo state of the first. */
  ghost predicate Uniform(frags: seq<Fragment>, undo: seq<UndoEntry>) {
    forall i, j :: 0 <= i < |frags| && 0 <= j < Length(frags[i]) ==>
      Undone(undo, ItemAt(frags[i], j)) == Undone(undo, frags[i].origin)
  }

  /** Every item of the runs is supplied by an applied operation. */
  ghost predicate AllSupplied(a: set<Operation>, frags: seq<Fragment>) {
    forall i, j :: 0 <= i < |frags| && 0 <= j < Length(frags[i]) ==> SuppliedId(a, ItemAt(frags[i], j))
  }

  ghost predicate SuppliedId(a: set<Operation>, id: Identity) {
    exists o :: o in a && InsertsId(o, id)
  }

  lemma ContentsAreSupplied(a: set<Operation>, frags: seq<Fragment>)
    requires Contents(Items(frags)) <= Supplied(a)
    ensures AllSupplied(a, frags)
  {
    forall i, j | 0 <= i < |frags| && 0 <= j < Length(frags[i])
      ensures SuppliedId(a, ItemAt(frags[i], j))
    {
      FlatItem(frags, Pos(i, j));
      var x := Items(frags)[Flat(frags, Pos(i, j))];
      var c := Content(x.node, x.content);
      assert c in Contents(Items(frags));
      var o :| o in a && c in Supply(o);
      SupplyIsMinted(o, c);
    }
  }

  /** Consecutive identities belong to one operation: between the items of two
      operations lies the identity of the earlier one. */
  lemma NeighboursShareOperation(u: set<Operation>, o: Operation, p: Operation, id: Identity)
    requires Honest(u) && o in u && p in u
    requires InsertsId(o, id) && InsertsId(p, Identity(id.actor, id.counter + 1))
    ensures o == p
  {
    ItemInInterval(u, o, id);
    ItemInInterval(u, p, Identity(id.actor, id.counter + 1));
    assert o == p || Histories.Precedes(o, p) || Histories.Precedes(p, o);
  }

  lemma {:induction false} RunHasOneOperation(u: set<Operation>, a: set<Operation>, f: Fragment, j: nat) returns (o: Operation)
    requires Honest(u) && a <= u && j < Length(f)
    requires forall k :: 0 <= k < Length(f) ==> SuppliedId(a, ItemAt(f, k))
    ensures o in a && InsertsId(o, f.origin) && InsertsId(o, ItemAt(f, j))
  {
    if j == 0 {
      assert SuppliedId(a, ItemAt(f, 0));
      assert ItemAt(f, 0) == f.origin;
      o :| o in a && InsertsId(o, f.origin);
    } else {
      o := RunHasOneOperation(u, a, f, j - 1);
      assert SuppliedId(a, ItemAt(f, j));
      var p :| p in a && InsertsId(p, ItemAt(f, j));
      NeighboursShareOperation(u, o, p, ItemAt(f, j - 1));
    }
  }

  lemma SameOperationSameCount(u: set<Operation>, a: set<Operation>, undo: seq<UndoEntry>, o: Operation, x: Identity, y: Identity)
    requires Honest(u) && a <= u && UndoTold(a, undo) && o in u && InsertsId(o, x) && InsertsId(o, y)
    ensures MaxCount(undo, x) == MaxCount(undo, y)
  {
    forall i, c
      ensures UndoEntry(x, i, c) in undo ==> UndoEntry(y, i, c) in undo
      ensures UndoEntry(y, i, c) in undo ==> UndoEntry(x, i, c) in undo
    {
      SameOperationSameEntry(u, a, undo, o, x, y, i, c);
      SameOperationSameEntry(u, a, undo, o, y, x, i, c);
    }
    SameEntriesSameCount(undo, x, undo, y);
  }

  lemma SameOperationSameEntry(u: set<Operation>, a: set<Operation>, undo: seq<UndoEntry>, o: Operation, x: Identity, y: Identity, i: Identity, c: nat)
    requires Honest(u) && a <= u && UndoTold(a, undo) && o in u && InsertsId(o, x) && InsertsId(o, y)
    ensures UndoEntry(x, i, c) in undo ==> UndoEntry(y, i, c) in undo
  {
    if UndoEntry(x, i, c) in undo {
      assert Recorded(a, UndoEntry(x, i, c));
      var q :| q in a && q.Undo? && q.timestamp == i && UndoCount(x, c) in q.counts;
      assert TargetsKnown(u, q);
      assert UndoCount(y, c) in q.counts;
      assert Recorded(a, UndoEntry(y, i, c));
    }
  }

  lemma RunsAreUniform(u: set<Operation>, a: set<Operation>, frags: seq<Fragment>, undo: seq<UndoEntry>)
    requires Honest(u) && a <= u && Contents(Items(frags)) <= Supplied(a) && UndoTold(a, undo)
    ensures Uniform(frags, undo)
  {
    ContentsAreSupplied(a, frags);
    forall i, j | 0 <= i < |frags| && 0 <= j < Length(frags[i])
      ensures Undone(undo, ItemAt(frags[i], j)) == Undone(undo, frags[i].origin)
    {
      var o := RunHasOneOperation(u, a, frags[i], j);
      SameOperationSameCount(u, a, undo, o, ItemAt(frags[i], j), frags[i].origin);
    }
  }

  // ---- Recomputing everything --------------------------------------------

  function Showing(f: Fragment, undo: seq<UndoEntry>): Fragment {
    f.(visible := RunVisible(f, undo))
  }

  function ShowRuns(frags: seq<Fragment>, undo: seq<UndoEntry>): (r: seq<Fragment>)
    ensures |r| == |frags|
  {
    seq(|frags|, i requires 0 <= i < |frags| => Showing(frags[i], undo))
  }

  lemma ShowRunItems(f: Fragment, undo: seq<UndoEntry>)
    requires forall j :: 0 <= j < Length(f) ==> Undone(undo, ItemAt(f, j)) == Undone(undo, f.origin)
    ensures ItemsOf(Showing(f, undo)) == ShowAll(ItemsOf(f), undo)
  {
    assert forall d :: d in (set x | x in f.deletions) <==> d in f.deletions;
  }

  /** Per run is per item. */
  lemma {:induction false} ShowRunsItems(frags: seq<Fragment>, undo: seq<UndoEntry>)
    requires Uniform(frags, undo)
    ensures Items(ShowRuns(frags, undo)) == ShowAll(Items(frags), undo)
  {
    if frags == [] {
    } else {
      var init, last := frags[..|frags| - 1], frags[|frags| - 1];
      ShowRunsItems(init, undo);
      ShowRunItems(last, undo);
      assert ShowRuns(frags, undo)[..|frags| - 1] == ShowRuns(init, undo);
      assert ShowAll(Items(init) + ItemsOf(last), undo) == ShowAll(Items(init), undo) + ShowAll(ItemsOf(last), undo);
    }
  }

  method RefreshAll(frags: seq<Fragment>, undo: seq<UndoEntry>) returns (r: seq<Fragment>)
    ensures r == ShowRuns(frags, undo)
  {
    r := [];
    for i := 0 to |frags|
      invariant |r| == i && forall j :: 0 <= j < i ==> r[j] == Showing(frags[j], undo)
    {
      var visible := ComputeVisible(frags[i], undo);
      r := r + [frags[i].(visible := visible)];
    }
  }

  // ---- Recomputing what an undo touches ----------------------------------

  /** Run-level form of `Shown`. */
  ghost predicate RunsShown(frags: seq<Fragment>, undo: seq<UndoEntry>) {
    forall i :: 0 <= i < |frags| ==> frags[i].visible == RunVisible(frags[i], undo)
  }

  lemma ShownRuns(frags: seq<Fragment>, undo: seq<UndoEntry>)
    requires NonEmptyRuns(frags) && Shown(Items(frags), undo)
    ensures RunsShown(frags, undo)
  {
    forall i | 0 <= i < |frags|
      ensures frags[i].visible == RunVisible(frags[i], undo)
    {
      FlatItem(frags, Pos(i, 0));
      var x := Items(frags)[Flat(frags, Pos(i, 0))];
      assert x.node.id == frags[i].origin && x.visible == frags[i].visible;
      assert forall d :: d in x.dels <==> d in frags[i].deletions;
    }
  }

  /** The run holds the target, or carries it as a deletion. */
  ghost predicate Touched(f: Fragment, t: Identity) {
    Contains(f, t) || t in f.deletions
  }

  /** Entries for other targets do not change a run's visibility. */
  lemma UntouchedStays(f: Fragment, undo: seq<UndoEntry>, more: seq<UndoEntry>)
    requires Length(f) > 0 && forall e :: e in more ==> !Touched(f, e.target)
    ensures RunVisible(f, undo + more) == RunVisible(f, undo)
  {
    assert Contains(f, f.origin);
    OtherEntries(undo, more, f.origin);
    forall d | d in f.deletions
      ensures Undone(undo + more, d) == Undone(undo, d)
    {
      OtherEntries(undo, more, d);
    }
  }

  lemma OtherEntries(undo: seq<UndoEntry>, more: seq<UndoEntry>, t: Identity)
    requires forall e :: e in more ==> e.target != t
    ensures MaxCount(undo + more, t) == MaxCount(undo, t)
  {
    forall i, c
      ensures UndoEntry(t, i, c) in undo + more <==> UndoEntry(t, i, c) in undo
    {
    }
    SameEntriesSameCount(undo + more, t, undo, t);
  }

  ghost predicate Affects(frags: seq<Fragment>, index: RunIndex, t: Identity, affected: set<RunId>) {
    forall i :: 0 <= i < |frags| && Touched(frags[i], t) ==>
      frags[i].origin in index.origins && index.origins[frags[i].origin].run in affected
  }

  /** All the handles are handles of runs. */
  ghost predicate Published(index: RunIndex, handles: set<RunId>) {
    handles <= index.directory.Keys
  }

  /** Deletions are identities of operations, not of items. */
  ghost predicate DeletionsApart(frags: seq<Fragment>) {
    forall i, d :: 0 <= i < |frags| && d in frags[i].deletions ==> !Has(DocOf(frags), d)
  }

  /** Handles of the runs the targets touch. Consecutive targets are looked up as one
      interval of the origin index if runs cover all of it, and one by one otherwise. */
  method AffectedRuns(frags: seq<Fragment>, index: RunIndex, targets: seq<Identity>) returns (affected: set<RunId>)
    requires Coherent(frags, index) && DeletionsApart(frags)
    ensures forall t :: t in targets ==> Affects(frags, index, t, affected)
    ensures Published(index, affected)
  {
    affected := {};
    var k := 0;
    hide Affects, Coherent, DeletionsApart;
    while k < |targets|
      invariant k <= |targets| && Published(index, affected)
      invariant forall t :: t in targets[..k] ==> Affects(frags, index, t, affected)
    {
      var n := Consecutive(targets, k);
      var some := StretchTouched(frags, index, targets, k, n);
      assert targets[..k + n] == targets[..k] + targets[k..k + n];
      MoreAffected(frags, index, targets[..k], targets[k..k + n], affected, some);
      affected := affected + some;
      k := k + n;
    }
    assert targets[..|targets|] == targets;
  }

  /** How many targets from `k` on name consecutive identities of one actor. */
  method Consecutive(targets: seq<Identity>, k: nat) returns (n: nat)
    requires k < |targets|
    ensures 0 < n && k + n <= |targets| && IsConsecutive(targets, k, n)
  {
    n := 1;
    while k + n < |targets| && targets[k + n] == Identity(targets[k].actor, targets[k].counter + n)
      invariant 0 < n && k + n <= |targets| && IsConsecutive(targets, k, n)
    {
      n := n + 1;
    }
  }

  ghost predicate IsConsecutive(targets: seq<Identity>, k: nat, n: nat)
    requires k + n <= |targets|
  {
    forall j :: k <= j < k + n ==> targets[j] == Identity(targets[k].actor, targets[k].counter + (j - k))
  }

  /** The runs a stretch of consecutive targets touches. */
  method StretchTouched(frags: seq<Fragment>, index: RunIndex, targets: seq<Identity>, k: nat, n: nat) returns (affected: set<RunId>)
    requires Coherent(frags, index) && DeletionsApart(frags) && 0 < n && k + n <= |targets| && IsConsecutive(targets, k, n)
    ensures forall t :: t in targets[k..k + n] ==> Affects(frags, index, t, affected)
    ensures Published(index, affected)
  {
    var covered;
    affected, covered := IntervalTouched(frags, index, targets[k], targets[k].counter + n);
    if covered {
      StretchHeld(frags, index, targets, k, n, affected);
    } else {
      var each := EachTouched(frags, index, targets[k..k + n]);
      hide *;
      MoreAffected(frags, index, [], targets[k..k + n], affected, each);
      assert [] + targets[k..k + n] == targets[k..k + n];
      affected := affected + each;
    }
  }

  /** The runs of every target, looked up one at a time. */
  method EachTouched(frags: seq<Fragment>, index: RunIndex, targets: seq<Identity>) returns (affected: set<RunId>)
    requires Coherent(frags, index) && DeletionsApart(frags)
    ensures forall t :: t in targets ==> Affects(frags, index, t, affected)
    ensures Published(index, affected)
  {
    hide *;
    affected := {};
    NothingPublished(index);
    for j := 0 to |targets|
      invariant Published(index, affected)
      invariant forall t :: t in targets[..j] ==> Affects(frags, index, t, affected)
    {
      var some := RunsTouched(frags, index, targets[j]);
      assert targets[..j + 1] == targets[..j] + [targets[j]];
      MoreAffected(frags, index, targets[..j], [targets[j]], affected, some);
      affected := affected + some;
    }
    assert targets[..|targets|] == targets;
  }

  lemma NothingPublished(index: RunIndex)
    ensures Published(index, {})
  {
  }

  /** A row of the origin index with a handle in the set holds the identity. */
  ghost predicate HeldBy(index: RunIndex, t: Identity, affected: set<RunId>) {
    exists s :: s in index.origins && s.actor == t.actor && s.counter <= t.counter < index.origins[s].end
                && index.origins[s].run in affected
  }

  lemma {:induction false} StretchHeld(frags: seq<Fragment>, index: RunIndex, targets: seq<Identity>, k: nat, n: nat, affected: set<RunId>)
    requires Coherent(frags, index) && DeletionsApart(frags) && k + n <= |targets| && IsConsecutive(targets, k, n) && 0 < n
    requires forall c :: targets[k].counter <= c < targets[k].counter + n ==> HeldBy(index, Identity(targets[k].actor, c), affected)
    ensures forall t :: t in targets[k..k + n] ==> Affects(frags, index, t, affected)
  {
    hide Coherent, DeletionsApart, HeldBy, Affects;
    forall t | t in targets[k..k + n]
      ensures Affects(frags, index, t, affected)
    {
      var j :| k <= j < k + n && targets[j] == t;
      assert t == Identity(targets[k].actor, targets[k].counter + (j - k));
      HeldAffects(frags, index, t, affected);
    }
  }

  lemma {:induction false} HeldAffects(frags: seq<Fragment>, index: RunIndex, t: Identity, affected: set<RunId>)
    requires Coherent(frags, index) && DeletionsApart(frags) && HeldBy(index, t, affected)
    ensures Affects(frags, index, t, affected)
  {
    hide Coherent, DeletionsApart;
    var s :| s in index.origins && s.actor == t.actor && s.counter <= t.counter < index.origins[s].end
             && index.origins[s].run in affected;
    HolderAffects(frags, index, t, s);
  }

  /** The runs that overlap an interval of counters, and whether they cover it. */
  method IntervalTouched(frags: seq<Fragment>, index: RunIndex, first: Identity, end: nat) returns (affected: set<RunId>, covered: bool)
    requires Coherent(frags, index) && first.counter < end
    ensures Published(index, affected)
    ensures covered ==> forall c :: first.counter <= c < end ==> HeldBy(index, Identity(first.actor, c), affected)
  {
    CoherentRowsApart(frags, index);
    var rows := Overlapping(index.origins, first.actor, first.counter, end);
    affected := {};
    var upTo := first.counter;
    hide Coherent, HeldBy, RowsApart, RowsNonEmpty;
    for i := 0 to |rows|
      invariant first.counter <= upTo <= end && Published(index, affected)
      invariant forall c :: first.counter <= c < upTo ==> HeldBy(index, Identity(first.actor, c), affected)
    {
      var start := if rows[i].start.counter < first.counter then first.counter else rows[i].start.counter;
      var last := if rows[i].interval.end < end then rows[i].interval.end else end;
      if start > upTo { break; }
      if last > upTo {
        assert rows[i] in rows;
        HoldsMore(frags, index, first, upTo, rows[i], last, affected);
        upTo := last;
        affected := affected + {rows[i].interval.run};
      }
      if upTo == end { break; }
    }
    covered := upTo == end;
  }

  lemma {:induction false} HoldsMore(frags: seq<Fragment>, index: RunIndex, first: Identity, upTo: nat, row: Row, last: nat, affected: set<RunId>)
    requires Coherent(frags, index) && Published(index, affected)
    requires row.start in index.origins && row.interval == index.origins[row.start] && row.start.actor == first.actor
    requires row.start.counter <= upTo <= last <= row.interval.end
    requires forall c :: first.counter <= c < upTo ==> HeldBy(index, Identity(first.actor, c), affected)
    ensures Published(index, affected + {row.interval.run})
    ensures forall c :: first.counter <= c < last ==> HeldBy(index, Identity(first.actor, c), affected + {row.interval.run})
  {
    RowIsRun(frags, index, row.start);
    hide Coherent;
    forall c | first.counter <= c < last
      ensures HeldBy(index, Identity(first.actor, c), affected + {row.interval.run})
    {
      if c < upTo { assert HeldBy(index, Identity(first.actor, c), affected); }
    }
  }

  lemma MoreAffected(frags: seq<Fragment>, index: RunIndex, done: seq<Identity>, next: seq<Identity>, affected: set<RunId>, some: set<RunId>)
    requires forall x :: x in done ==> Affects(frags, index, x, affected)
    requires forall x :: x in next ==> Affects(frags, index, x, some)
    requires Published(index, affected) && Published(index, some)
    ensures forall x :: x in done + next ==> Affects(frags, index, x, affected + some)
    ensures Published(index, affected + some)
  {
    forall x | x in done + next
      ensures Affects(frags, index, x, affected + some)
    {
      if x in done { assert Affects(frags, index, x, affected); } else { assert Affects(frags, index, x, some); }
    }
  }

  /** The runs one target touches: the one that holds it, or, for a target that is no
      item, those that carry the deletion. */
  method RunsTouched(frags: seq<Fragment>, index: RunIndex, t: Identity) returns (affected: set<RunId>)
    requires Coherent(frags, index) && DeletionsApart(frags)
    ensures Affects(frags, index, t, affected) && Published(index, affected)
  {
    var start := Predecessor(index.origins, t);
    if start.Some? && t.counter < index.origins[start.value].end {
      HolderAffects(frags, index, t, start.value);
      return {index.origins[start.value].run};
    }
    affected := set k | k in index.deletions && k.deletion == t :: index.deletions[k].run;
    NoHolder(frags, index, t, start);
    Incidences(frags, index, t);
  }

  /** The deletion index names the runs that carry a deletion. */
  lemma Incidences(frags: seq<Fragment>, index: RunIndex, t: Identity)
    requires Coherent(frags, index) && forall i :: 0 <= i < |frags| ==> !Contains(frags[i], t)
    ensures Affects(frags, index, t, set k | k in index.deletions && k.deletion == t :: index.deletions[k].run)
    ensures Published(index, set k | k in index.deletions && k.deletion == t :: index.deletions[k].run)
  {
    var affected := set k | k in index.deletions && k.deletion == t :: index.deletions[k].run;
    forall i | 0 <= i < |frags| && Touched(frags[i], t)
      ensures frags[i].origin in index.origins && index.origins[frags[i].origin].run in affected
    {
      KeptLabel(frags, index, frags[i], t);
    }
    forall r | r in affected
      ensures r in index.directory
    {
      var k :| k in index.deletions && k.deletion == t && index.deletions[k].run == r;
      var f := LabelledRun(frags, index, k);
      KeptLabel(frags, index, f, t);
      RowIsRun(frags, index, f.origin);
    }
  }

  lemma HolderAffects(frags: seq<Fragment>, index: RunIndex, t: Identity, s: Identity)
    requires Coherent(frags, index) && s in index.origins && s.actor == t.actor && s.counter <= t.counter < index.origins[s].end
    requires DeletionsApart(frags)
    ensures Affects(frags, index, t, {index.origins[s].run}) && Published(index, {index.origins[s].run})
  {
    OnlyHolder(frags, index, t, s);
    RowIsRun(frags, index, s);
  }

  /** A target that is an item touches the run that holds it and no other. */
  lemma OnlyHolder(frags: seq<Fragment>, index: RunIndex, t: Identity, s: Identity)
    requires Coherent(frags, index) && s in index.origins && s.actor == t.actor && s.counter <= t.counter < index.origins[s].end
    requires DeletionsApart(frags)
    ensures forall i :: 0 <= i < |frags| && Touched(frags[i], t) ==> frags[i].origin == s
  {
    var m := RunAt(frags, index, s);
    ContainsHas(frags, m, t);
    forall i | 0 <= i < |frags| && Touched(frags[i], t)
      ensures frags[i].origin == s
    {
      if i != m { RunPairApart(frags, i, m); }
    }
  }

  lemma NoHolder(frags: seq<Fragment>, index: RunIndex, t: Identity, start: Option<Identity>)
    requires Coherent(frags, index) && IsPredecessor(index.origins, t.actor, t.counter, start)
    requires start.Some? ==> index.origins[start.value].end <= t.counter
    ensures forall i :: 0 <= i < |frags| ==> !Contains(frags[i], t)
  {
    forall i | 0 <= i < |frags| && Contains(frags[i], t)
      ensures false
    {
      HolderIsFound(frags, index, t, i, start);
    }
  }

  lemma HolderIsFound(frags: seq<Fragment>, index: RunIndex, t: Identity, i: nat, start: Option<Identity>)
    requires Coherent(frags, index) && i < |frags| && Contains(frags[i], t)
    requires IsPredecessor(index.origins, t.actor, t.counter, start)
    ensures start.Some? && t.counter < index.origins[start.value].end
  {
    var s := frags[i].origin;
    assert s in index.origins && s.counter <= t.counter;
    var m := RunAt(frags, index, start.value);
    if i != m { RunPairApart(frags, i, m); }
  }

  /** The runs with handles in `done` are recomputed, the others are as before. */
  ghost predicate Recomputed(frags: seq<Fragment>, index: RunIndex, done: set<RunId>, undo: seq<UndoEntry>, r: seq<Fragment>)
    requires Listed(frags, index.origins)
  {
    |r| == |frags| && forall i :: 0 <= i < |frags| ==>
      r[i] == if index.origins[frags[i].origin].run in done then Showing(frags[i], undo) else frags[i]
  }

  lemma RecomputeStep(frags: seq<Fragment>, index: RunIndex, done: set<RunId>, undo: seq<UndoEntry>, r: seq<Fragment>, run: RunId, rank: nat)
    requires Coherent(frags, index) && Recomputed(frags, index, done, undo, r) && rank < |frags|
    requires frags[rank].origin in index.origins && index.origins[frags[rank].origin].run == run
    ensures Recomputed(frags, index, done + {run}, undo, r[rank := Showing(frags[rank], undo)])
  {
    assert Handles(RunsOf(frags, index.origins));
    forall i | 0 <= i < |frags| && i != rank
      ensures index.origins[frags[i].origin].run != run
    {
      assert RunsOf(frags, index.origins)[i] != RunsOf(frags, index.origins)[rank];
    }
  }

  method RecomputeRun(frags: seq<Fragment>, index: RunIndex, ghost done: set<RunId>, undo: seq<UndoEntry>, r: seq<Fragment>, run: RunId)
    returns (ok: bool, r': seq<Fragment>)
    requires Coherent(frags, index) && Recomputed(frags, index, done, undo, r)
    requires run in index.directory
    ensures ok && Recomputed(frags, index, done + {run}, undo, r')
  {
    var rank := RetainedRank(frags, index, run);
    if rank.None? { return false, r; }
    var visible := ComputeVisible(frags[rank.value], undo);
    RecomputeStep(frags, index, done, undo, r, run, rank.value);
    return true, r[rank.value := frags[rank.value].(visible := visible)];
  }

  lemma MoveOver(done: set<RunId>, left: set<RunId>, run: RunId)
    requires run in left
    ensures done + {run} + (left - {run}) == done + left
  {
  }

  method RecomputeRuns(frags: seq<Fragment>, index: RunIndex, affected: set<RunId>, undo: seq<UndoEntry>)
    returns (ok: bool, r: seq<Fragment>)
    requires Coherent(frags, index) && Published(index, affected)
    ensures ok && Recomputed(frags, index, affected, undo, r)
  {
    ok, r := true, frags;
    var left := affected;
    ghost var done: set<RunId> := {};
    while left != {}
      invariant ok && done + left == affected && Published(index, left)
      invariant Recomputed(frags, index, done, undo, r)
      decreases |left|
    {
      var run :| run in left;
      ok, r := RecomputeRun(frags, index, done, undo, r, run);
      if !ok { return; }
      MoveOver(done, left, run);
      done := done + {run};
      left := left - {run};
    }
  }

  /** Bring visibility up to date after the entries `more` were recorded: only
      touched runs change, and the result is as if all were recomputed. */
  method RecomputeFor(frags: seq<Fragment>, index: RunIndex, undo: seq<UndoEntry>, more: seq<UndoEntry>, targets: seq<Identity>)
    returns (r: seq<Fragment>)
    requires NonEmptyRuns(frags) && RunsShown(frags, undo) && (index.valid ==> Coherent(frags, index))
    requires DeletionsApart(frags) && forall e :: e in more ==> e.target in targets
    ensures r == ShowRuns(frags, undo + more)
  {
    if index.valid {
      var affected := AffectedRuns(frags, index, targets);
      var ok;
      ok, r := RecomputeRuns(frags, index, affected, undo + more);
      if ok {
        EnoughRecomputed(frags, index, undo, more, targets, affected, r);
        return;
      }
    }
    r := RefreshAll(frags, undo + more);
  }

  lemma EnoughRecomputed(frags: seq<Fragment>, index: RunIndex, undo: seq<UndoEntry>, more: seq<UndoEntry>, targets: seq<Identity>,
                         affected: set<RunId>, r: seq<Fragment>)
    requires NonEmptyRuns(frags) && RunsShown(frags, undo) && Listed(frags, index.origins)
    requires forall e :: e in more ==> e.target in targets
    requires forall t :: t in targets ==> Affects(frags, index, t, affected)
    requires Recomputed(frags, index, affected, undo + more, r)
    ensures r == ShowRuns(frags, undo + more)
  {
    forall i | 0 <= i < |frags| && index.origins[frags[i].origin].run !in affected
      ensures RunVisible(frags[i], undo + more) == frags[i].visible
    {
      forall e | e in more
        ensures !Touched(frags[i], e.target)
      {
        assert Affects(frags, index, e.target, affected);
      }
      UntouchedStays(frags[i], undo, more);
    }
  }
}
