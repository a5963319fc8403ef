/** What undoing and redoing an edit does to the document, in terms of the edit: an
    undo hides what the edit inserted and shows what only this edit deleted, and a
    redo does the opposite. In particular, undoing an edit right after it gives back
    the text before it. */
module UndoEffects {
  import opened Ids
  import opened VersionVectors
  import opened FugueOrder
  import opened Fragments
  import opened Histories
  import opened Indexes
  import opened Representation
  import opened Delivery
  import opened VisibleText
  import opened LocalPlacement
  import opened LocalOperations
  import opened UndoHistories
  import opened LocalUndo
  import opened UndoRuns

  // ---- Groups and the edits they record ------------------------------------

  ghost predicate DeletesAny(o: Operation) {
    exists x :: Deletes(o, x)
  }

  /** The group names exactly the items the edit inserts, each once, and the edit
      itself as a deletion exactly if it deletes. */
  ghost predicate Records(g: Group, o: Operation) {
    && o.Edit? && g.id == o.timestamp && g.operations == [o.timestamp]
    && NoRepeats(g.inserted) && (forall x :: x in g.inserted <==> InsertsId(o, x))
    && g.deletions == if DeletesAny(o) then [o.timestamp] else []
  }

  lemma {:induction false} GroupRecords(u: set<Operation>, o: Operation, retained: nat)
    requires Honest(u) && o in u && o.Edit?
    ensures Records(GroupOf(o, retained), o)
  {
    assert WellMinted(o, FirstCounter(o));
    InsertedIff(o);
    InsertedOnce(o.inserts);
    if o.deletions != [] {
      assert InDeletion(o.deletions[0], o.deletions[0].first);
      assert Deletes(o, o.deletions[0].first);
    }
    hide InsertedIds;
  }

  /** What an undo of the edit counts: its items, and the edit itself if it deletes. */
  ghost predicate Counts(o: Operation, t: Identity) {
    InsertsId(o, t) || (t == o.timestamp && DeletesAny(o))
  }

  lemma {:induction false} TargetsAreCounted(g: Group, o: Operation)
    requires Records(g, o)
    ensures forall t :: t in TargetsOf(g) <==> Counts(o, t)
  {
    hide InsertsId, NoRepeats, DeletesAny;
  }

  /** Everything the edit is counted by went up by one, and nothing else. */
  ghost predicate CountedOnce(undo: seq<UndoEntry>, undo': seq<UndoEntry>, o: Operation) {
    forall t :: MaxCount(undo', t) == MaxCount(undo, t) + if Counts(o, t) then 1 else 0
  }

  /** The edit is in force: nothing it is counted by is undone. */
  ghost predicate InForce(undo: seq<UndoEntry>, o: Operation) {
    forall t :: Counts(o, t) ==> !Undone(undo, t)
  }

  ghost predicate Withdrawn(undo: seq<UndoEntry>, o: Operation) {
    forall t :: Counts(o, t) ==> Undone(undo, t)
  }

  lemma {:induction false} CountedTurns(undo: seq<UndoEntry>, undo': seq<UndoEntry>, o: Operation)
    requires CountedOnce(undo, undo', o)
    ensures forall t :: Undone(undo', t) <==> (Undone(undo, t) <==> !Counts(o, t))
    ensures InForce(undo, o) ==> Withdrawn(undo', o)
    ensures Withdrawn(undo, o) ==> InForce(undo', o)
  {
    hide MaxCount, Counts;
  }

  // ---- What an undo shows --------------------------------------------------

  /** Only this edit keeps the item hidden. */
  ghost predicate OnlyDeleter(undo: seq<UndoEntry>, o: Operation, x: Item) {
    && Deletes(o, x.node.id) && !Undone(undo, x.node.id)
    && forall d :: d in x.dels && d != o.timestamp ==> Undone(undo, d)
  }

  /** Undoing `o` hides what it inserted, shows what only it deleted, and leaves
      everything else as it is. */
  ghost predicate Reverts(o: Operation, undo: seq<UndoEntry>, items: seq<Item>, items': seq<Item>) {
    && |items'| == |items|
    && forall i :: 0 <= i < |items| ==>
         items'[i] == items[i].(visible := !InsertsId(o, items[i].node.id) && (items[i].visible || OnlyDeleter(undo, o, items[i])))
  }

  /** Redoing `o` hides what it deleted, shows what it inserted unless that was
      deleted, and leaves everything else as it is. */
  ghost predicate Reinstates(o: Operation, undo: seq<UndoEntry>, items: seq<Item>, items': seq<Item>) {
    && |items'| == |items|
    && forall i :: 0 <= i < |items| ==>
         items'[i] == items[i].(visible := if InsertsId(o, items[i].node.id) then forall d :: d in items[i].dels ==> Undone(undo, d)
                                           else items[i].visible && !Deletes(o, items[i].node.id))
  }

  /** The edit is among an item's deletions exactly if it deletes the item. */
  lemma {:induction false} DeleterIsEdit(u: set<Operation>, a: set<Operation>, items: seq<Item>, o: Operation, i: nat)
    requires Honest(u) && a <= u && o in a && DeletionsTold(a, items) && i < |items|
    ensures o.timestamp in items[i].dels <==> Deletes(o, items[i].node.id)
    ensures forall d :: d in items[i].dels ==> !InsertsId(o, d)
  {
    forall q | q in a && q.timestamp == o.timestamp
      ensures q == o
    {
      SameStampSameOperation(u, q, o);
    }
    forall d | d in items[i].dels
      ensures !InsertsId(o, d)
    {
      assert DeletedBy(a, items[i].node.id, d);
      var q :| q in a && q.timestamp == d && Deletes(q, items[i].node.id);
      OperationsAreNotItems(u, o, q);
    }
    assert Deletes(o, items[i].node.id) ==> DeletedBy(a, items[i].node.id, o.timestamp);
    hide Honest, Deletes, InsertsId;
  }

  lemma {:induction false} SameStampSameOperation(u: set<Operation>, q: Operation, o: Operation)
    requires Honest(u) && q in u && o in u && q.timestamp == o.timestamp
    ensures q == o
  {
    assert WellMinted(q, FirstCounter(q)) && WellMinted(o, FirstCounter(o));
    assert q != o ==> Precedes(q, o) || Precedes(o, q);
  }

  /** An edit does not delete what it inserts. */
  lemma {:induction false} OwnItemsStay(u: set<Operation>, o: Operation, id: Identity)
    requires Honest(u) && o in u && InsertsId(o, id)
    ensures !Deletes(o, id)
  {
    if Deletes(o, id) {
      assert DeletionsKnown(u, o);
      KnownIsOlder(u, o, id);
      ItemInInterval(u, o, id);
    }
  }

  lemma {:induction false} ItemTurns(u: set<Operation>, a: set<Operation>, items: seq<Item>, undo: seq<UndoEntry>, undo': seq<UndoEntry>, o: Operation,
                                     i: nat)
    requires Honest(u) && a <= u && o in a && Represents(a, items, undo) && CountedOnce(undo, undo', o) && i < |items|
    ensures Undone(undo', items[i].node.id) <==> (Undone(undo, items[i].node.id) <==> !InsertsId(o, items[i].node.id))
    ensures forall d :: d in items[i].dels && d != o.timestamp ==> (Undone(undo', d) <==> Undone(undo, d))
    ensures o.timestamp in items[i].dels ==> DeletesAny(o)
    ensures Deletes(o, items[i].node.id) <==> o.timestamp in items[i].dels
    ensures InsertsId(o, items[i].node.id) ==> !Deletes(o, items[i].node.id)
    ensures items[i].visible == ItemVisible(undo, items[i].node.id, items[i].dels)
  {
    var id := items[i].node.id;
    CountedTurns(undo, undo', o);
    DeleterIsEdit(u, a, items, o, i);
    NoItemIsOperation(u, a, items, o);
    assert NodesOf(items)[i].id == id;
    if InsertsId(o, id) { OwnItemsStay(u, o, id); }
    hide Honest, Deletes, InsertsId, Undone, MaxCount, Contents, Supplied, DeletionsTold, UndoTold, Valid, CountedOnce;
  }

  lemma {:induction false} UndoReverts(u: set<Operation>, a: set<Operation>, items: seq<Item>, undo: seq<UndoEntry>, undo': seq<UndoEntry>, o: Operation)
    requires Honest(u) && a <= u && o in a && Represents(a, items, undo)
    requires CountedOnce(undo, undo', o) && InForce(undo, o)
    ensures Reverts(o, undo, items, ShowAll(items, undo'))
  {
    CountedTurns(undo, undo', o);
    hide Honest, Represents, Deletes, InsertsId, Undone, CountedOnce;
    forall i | 0 <= i < |items|
      ensures ItemVisible(undo', items[i].node.id, items[i].dels)
              == (!InsertsId(o, items[i].node.id) && (items[i].visible || OnlyDeleter(undo, o, items[i])))
    {
      ItemTurns(u, a, items, undo, undo', o, i);
      assert Counts(o, o.timestamp) <== DeletesAny(o);
      assert Counts(o, items[i].node.id) <== InsertsId(o, items[i].node.id);
    }
  }

  lemma {:induction false} RedoReinstates(u: set<Operation>, a: set<Operation>, items: seq<Item>, undo: seq<UndoEntry>, undo': seq<UndoEntry>, o: Operation)
    requires Honest(u) && a <= u && o in a && Represents(a, items, undo)
    requires CountedOnce(undo, undo', o) && Withdrawn(undo, o)
    ensures Reinstates(o, undo, items, ShowAll(items, undo'))
  {
    CountedTurns(undo, undo', o);
    hide Honest, Represents, Deletes, InsertsId, Undone, CountedOnce;
    forall i | 0 <= i < |items|
      ensures ItemVisible(undo', items[i].node.id, items[i].dels)
              == (if InsertsId(o, items[i].node.id) then forall d :: d in items[i].dels ==> Undone(undo, d)
                  else items[i].visible && !Deletes(o, items[i].node.id))
    {
      ItemTurns(u, a, items, undo, undo', o, i);
      assert Counts(o, o.timestamp) <== DeletesAny(o);
      assert Counts(o, items[i].node.id) <== InsertsId(o, items[i].node.id);
    }
  }

  // ---- Undoing an edit right after it --------------------------------------

  /** An item as it is shown once `o` is undone. */
  ghost function ItemReverted(o: Operation, undo: seq<UndoEntry>, x: Item): Item {
    x.(visible := !InsertsId(o, x.node.id) && (x.visible || OnlyDeleter(undo, o, x)))
  }

  ghost function Reverted(o: Operation, undo: seq<UndoEntry>, items: seq<Item>): (r: seq<Item>)
    ensures |r| == |items|
  {
    seq(|items|, i requires 0 <= i < |items| => ItemReverted(o, undo, items[i]))
  }

  lemma {:induction false} RevertsIsReverted(o: Operation, undo: seq<UndoEntry>, items: seq<Item>, items': seq<Item>)
    requires Reverts(o, undo, items, items')
    ensures items' == Reverted(o, undo, items)
  {
    hide InsertsId, OnlyDeleter;
  }

  lemma {:induction false} RevertedConcat(o: Operation, undo: seq<UndoEntry>, x: seq<Item>, y: seq<Item>)
    ensures Reverted(o, undo, x + y) == Reverted(o, undo, x) + Reverted(o, undo, y)
  {
    hide ItemReverted;
  }

  /** Shown alike, two documents have one text. */
  lemma {:induction false} SameShownSameText(x: seq<Item>, y: seq<Item>)
    requires |x| == |y| && forall i :: 0 <= i < |x| ==> IsText(x[i]) == IsText(y[i]) && x[i].content == y[i].content
    ensures Text(x) == Text(y)
  {
    hide IsText;
    if x != [] { SameShownSameText(x[..|x| - 1], y[..|y| - 1]); }
  }

  lemma {:induction false} HiddenIsNoText(x: seq<Item>)
    requires forall i :: 0 <= i < |x| ==> !IsText(x[i])
    ensures Text(x) == []
  {
    if x != [] { HiddenIsNoText(x[..|x| - 1]); }
  }

  /** Every item of these runs is one the edit inserts. */
  ghost predicate AllInserted(o: Operation, runs: seq<seq<Item>>) {
    forall k, j :: 0 <= k < |runs| && 0 <= j < |runs[k]| ==> InsertsId(o, runs[k][j].node.id)
  }

  /** Reverting takes the runs that were woven in out of the text again. */
  lemma {:induction false} WovenReverted(o: Operation, undo: seq<UndoEntry>, base: seq<Item>, ps: seq<nat>, runs: seq<seq<Item>>)
    requires |ps| == |runs| && Places(ps, |base|) && AllInserted(o, runs)
    ensures Text(Reverted(o, undo, Woven(base, ps, runs))) == Text(Reverted(o, undo, base))
    decreases |ps|
  {
    if ps != [] {
      var last := |ps| - 1;
      hide Places, AllInserted, Woven, Reverted, Text;
      RevertedWoven(o, undo, base, ps, runs);
      FrontInserted(o, runs);
      RunReverted(o, undo, runs, last);
      WovenReverted(o, undo, base[..ps[last]], ps[..last], runs[..last]);
      RevertedSplit(o, undo, base, ps[last]);
    }
  }

  lemma {:induction false} RevertedWoven(o: Operation, undo: seq<UndoEntry>, base: seq<Item>, ps: seq<nat>, runs: seq<seq<Item>>)
    requires |ps| == |runs| && Places(ps, |base|) && ps != []
    ensures var last := |ps| - 1;
            && ps[last] <= |base| && Places(ps[..last], ps[last])
            && Text(Reverted(o, undo, Woven(base, ps, runs)))
               == Text(Reverted(o, undo, Woven(base[..ps[last]], ps[..last], runs[..last])))
                  + Text(Reverted(o, undo, runs[last])) + Text(Reverted(o, undo, base[ps[last]..]))
  {
    var last := |ps| - 1;
    WovenUnfold(base, ps, runs);
    hide *;
    RevertedThree(o, undo, Woven(base[..ps[last]], ps[..last], runs[..last]), runs[last], base[ps[last]..]);
  }

  lemma {:induction false} RevertedSplit(o: Operation, undo: seq<UndoEntry>, items: seq<Item>, p: nat)
    requires p <= |items|
    ensures Text(Reverted(o, undo, items)) == Text(Reverted(o, undo, items[..p])) + Text(Reverted(o, undo, items[p..]))
  {
    RevertedConcat(o, undo, items[..p], items[p..]);
    assert items[..p] + items[p..] == items;
    TextConcat(Reverted(o, undo, items[..p]), Reverted(o, undo, items[p..]));
  }

  lemma {:induction false} FrontInserted(o: Operation, runs: seq<seq<Item>>)
    requires runs != [] && AllInserted(o, runs)
    ensures AllInserted(o, runs[..|runs| - 1])
  {
    hide InsertsId;
  }

  lemma {:induction false} RunReverted(o: Operation, undo: seq<UndoEntry>, runs: seq<seq<Item>>, k: nat)
    requires k < |runs| && AllInserted(o, runs)
    ensures Text(Reverted(o, undo, runs[k])) == []
  {
    hide InsertsId, OnlyDeleter;
    HiddenIsNoText(Reverted(o, undo, runs[k]));
  }

  lemma {:induction false} RevertedThree(o: Operation, undo: seq<UndoEntry>, x: seq<Item>, y: seq<Item>, z: seq<Item>)
    ensures Text(Reverted(o, undo, x + y + z))
            == Text(Reverted(o, undo, x)) + Text(Reverted(o, undo, y)) + Text(Reverted(o, undo, z))
  {
    hide *;
    RevertedConcat(o, undo, x + y, z);
    RevertedConcat(o, undo, x, y);
    TextOfThree(Reverted(o, undo, x), Reverted(o, undo, y), Reverted(o, undo, z));
  }

  lemma {:induction false} OldItemsAreNotNew(u: set<Operation>, a: set<Operation>, v: Version, items: seq<Item>, undo: seq<UndoEntry>, o: Operation,
                                             i: nat)
    requires Honest(u) && MintedFrom(u, a, v, o) && Represents(a, items, undo) && i < |items|
    ensures !InsertsId(o, items[i].node.id)
  {
    var c := Content(items[i].node, items[i].content);
    assert c in Contents(items);
    var p :| p in a && c in Supply(p);
    SupplyIsMinted(p, c);
    NewItemsAreFresh(u, a, v, o, items[i].node.id);
  }

  /** What the edit hid is shown again, and nothing else was changed. */
  lemma {:induction false} HiddenReverted(u: set<Operation>, a: set<Operation>, v: Version, items: seq<Item>, undo: seq<UndoEntry>, ranges: seq<Range>,
                                          o: Operation)
    requires Honest(u) && MintedFrom(u, a, v, o) && Represents(a, items, undo) && o.Edit?
    requires forall id :: Deletes(o, id) <==> id in ChosenIds(items, ranges)
    ensures Text(Reverted(o, undo, HideRanges(items, ranges, o.timestamp))) == Text(items)
  {
    var back := Reverted(o, undo, HideRanges(items, ranges, o.timestamp));
    forall i | 0 <= i < |items|
      ensures IsText(back[i]) == IsText(items[i]) && back[i].content == items[i].content
    {
      OldItemsAreNotNew(u, a, v, items, undo, o, i);
      ChosenIsDeleted(items, undo, ranges, o, i);
      assert items[i].visible == ItemVisible(undo, items[i].node.id, items[i].dels);
      hide Honest, MintedFrom, Represents, InsertsId, Deletes, Undone, ChosenIds;
    }
    hide *;
    SameShownSameText(back, items);
  }

  lemma {:induction false} ChosenIsDeleted(items: seq<Item>, undo: seq<UndoEntry>, ranges: seq<Range>, o: Operation, i: nat)
    requires Distinct(NodesOf(items)) && i < |items| && forall id :: Deletes(o, id) <==> id in ChosenIds(items, ranges)
    ensures Deletes(o, items[i].node.id) <==> Chosen(items, ranges, i)
  {
    hide Deletes, Chosen;
    if Deletes(o, items[i].node.id) {
      var j :| 0 <= j < |items| && Chosen(items, ranges, j) && items[j].node.id == items[i].node.id;
      assert NodesOf(items)[i].id == NodesOf(items)[j].id;
    }
  }

  /** Undoing an edit right after it gives back the text before it. */
  lemma {:induction false} EditThenUndo(u: set<Operation>, a: set<Operation>, v: Version, items: seq<Item>, undo: seq<UndoEntry>, ranges: seq<Range>,
                                        news: seq<seq<Scalar>>, actor: ActorId, first: nat, o: Operation, after: seq<Item>, back: seq<Item>)
    requires Honest(u) && MintedFrom(u, a, v, o) && Represents(a, items, undo)
    requires IsEdit(items, ranges, news, actor, first, o, after) && Reverts(o, undo, after, back)
    ensures Text(back) == Text(items)
  {
    var ps, runs :| MintedSoFar(items, ranges, news, o.inserts, ps, runs) && IsWoven(items, ranges, o, ps, runs, after);
    var hidden := HideRanges(items, ranges, o.timestamp);
    var kept := RunItems(RunFragments(o.inserts));
    RunsAreInserted(o);
    HiddenReverted(u, a, v, items, undo, ranges, o);
    RevertsIsReverted(o, undo, after, back);
    WovenReverted(o, undo, hidden, KeptPlaces(ps, runs), kept);
    hide *;
  }

  lemma {:induction false} RunsAreInserted(o: Operation)
    requires o.Edit?
    ensures AllInserted(o, RunItems(RunFragments(o.inserts)))
  {
    var runs: seq<seq<Item>> := RunItems(RunFragments(o.inserts));
    forall k: nat, j: nat | 0 <= k < |runs| && 0 <= j < |runs[k]|
      ensures InsertsId(o, runs[k][j].node.id)
    {
      assert runs[k] == ItemsOf(RunFragment(o.inserts[k]));
      assert RunHolds(o.inserts[k], runs[k][j].node.id);
    }
  }

  // ---- The groups of a replica ---------------------------------------------

  /** The group records an edit of the actor that is in force, or withdrawn. */
  ghost predicate ActsAs(a: set<Operation>, actor: ActorId, undo: seq<UndoEntry>, g: Group, active: bool, o: Operation) {
    && o in a && o.timestamp.actor == actor && Records(g, o)
    && if active then InForce(undo, o) else Withdrawn(undo, o)
  }

  ghost predicate Acts(a: set<Operation>, actor: ActorId, undo: seq<UndoEntry>, g: Group, active: bool) {
    exists o :: ActsAs(a, actor, undo, g, active, o)
  }

  /** Groups below the cursor are in force, those from it on are withdrawn. */
  ghost predicate AllAct(a: set<Operation>, actor: ActorId, undo: seq<UndoEntry>, stack: seq<Group>, cursor: nat) {
    && cursor <= |stack|
    && forall i :: 0 <= i < |stack| ==> Acts(a, actor, undo, stack[i], i < cursor)
  }

  /** What the edit is counted by belongs to its actor. */
  lemma {:induction false} CountsOwn(u: set<Operation>, o: Operation)
    requires Honest(u) && o in u
    ensures forall t :: Counts(o, t) ==> t.actor == o.timestamp.actor
  {
    forall t | InsertsId(o, t)
      ensures t.actor == o.timestamp.actor
    {
      ItemInInterval(u, o, t);
    }
    hide Honest, InsertsId, DeletesAny;
  }

  /** Counts of the actor's own identities are the same. */
  ghost predicate SameFor(undo: seq<UndoEntry>, undo': seq<UndoEntry>, actor: ActorId) {
    forall t: Identity :: t.actor == actor ==> MaxCount(undo', t) == MaxCount(undo, t)
  }

  /** Only the actor itself undoes its edits, so what it has not received changes
      none of its counts. */
  lemma {:induction false} OthersCountOthers(u: set<Operation>, a: set<Operation>, b: set<Operation>, undo: seq<UndoEntry>, undo': seq<UndoEntry>,
                                             actor: ActorId)
    requires Honest(u) && a <= b <= u && OwnApplied(u, a, actor) && UndoTold(a, undo) && UndoTold(b, undo')
    ensures SameFor(undo, undo', actor)
  {
    forall t: Identity | t.actor == actor
      ensures MaxCount(undo', t) == MaxCount(undo, t)
    {
      forall i, c
        ensures UndoEntry(t, i, c) in undo' <==> UndoEntry(t, i, c) in undo
      {
        OwnEntry(u, a, b, actor, UndoEntry(t, i, c));
      }
      SameEntriesSameCount(undo', t, undo, t);
    }
  }

  lemma {:induction false} OwnEntry(u: set<Operation>, a: set<Operation>, b: set<Operation>, actor: ActorId, e: UndoEntry)
    requires Honest(u) && a <= b <= u && OwnApplied(u, a, actor) && e.target.actor == actor
    ensures Recorded(b, e) <==> Recorded(a, e)
  {
    if Recorded(b, e) {
      var q :| q in b && q.Undo? && q.timestamp == e.undo && UndoCount(e.target, e.count) in q.counts;
      assert TargetsKnown(u, q);
      assert UndoCount(e.target, e.count).target == e.target;
      assert q in a;
    }
  }

  lemma {:induction false} ActsStill(u: set<Operation>, a: set<Operation>, b: set<Operation>, actor: ActorId, undo: seq<UndoEntry>,
                                     undo': seq<UndoEntry>, g: Group, active: bool)
    requires Honest(u) && a <= b <= u && SameFor(undo, undo', actor) && Acts(a, actor, undo, g, active)
    ensures Acts(b, actor, undo', g, active)
  {
    var o :| ActsAs(a, actor, undo, g, active, o);
    CountsOwn(u, o);
    hide Honest, Counts, Records, MaxCount;
    assert ActsAs(b, actor, undo', g, active, o);
  }

  /** Others' operations neither undo nor redo anything of this replica. */
  lemma {:induction false} AllActStill(u: set<Operation>, a: set<Operation>, b: set<Operation>, actor: ActorId, undo: seq<UndoEntry>,
                                       undo': seq<UndoEntry>, stack: seq<Group>, cursor: nat)
    requires Honest(u) && a <= b <= u && SameFor(undo, undo', actor) && AllAct(a, actor, undo, stack, cursor)
    ensures AllAct(b, actor, undo', stack, cursor)
  {
    hide Honest, SameFor, Acts;
    forall i | 0 <= i < |stack|
      ensures Acts(b, actor, undo', stack[i], i < cursor)
    {
      ActsStill(u, a, b, actor, undo, undo', stack[i], i < cursor);
    }
  }

  lemma {:induction false} AllActLater(u: set<Operation>, a: set<Operation>, b: set<Operation>, actor: ActorId, undo: seq<UndoEntry>,
                                       stack: seq<Group>, cursor: nat)
    requires Honest(u) && a <= b <= u && AllAct(a, actor, undo, stack, cursor)
    ensures AllAct(b, actor, undo, stack, cursor)
  {
    AllActStill(u, a, b, actor, undo, undo, stack, cursor);
  }

  /** Nothing a new edit is counted by was ever counted. */
  lemma {:induction false} NewIsInForce(u: set<Operation>, a: set<Operation>, v: Version, undo: seq<UndoEntry>, o: Operation)
    requires Honest(u) && MintedFrom(u, a, v, o) && UndoTold(a, undo)
    ensures InForce(undo, o)
  {
    forall t | Counts(o, t)
      ensures MaxCount(undo, t) == 0
    {
      MaxCountIsMax(undo, t);
      if MaxCount(undo, t) > 0 {
        var e :| e in undo && e.target == t && e.count == MaxCount(undo, t);
        assert Recorded(a, e);
        TargetIsOld(u, a, v, o, e);
      }
    }
  }

  lemma {:induction false} TargetIsOld(u: set<Operation>, a: set<Operation>, v: Version, o: Operation, e: UndoEntry)
    requires Honest(u) && MintedFrom(u, a, v, o) && Recorded(a, e)
    ensures !Counts(o, e.target)
  {
    var q :| q in a && q.Undo? && q.timestamp == e.undo && UndoCount(e.target, e.count) in q.counts;
    assert TargetsKnown(u, q);
    assert UndoCount(e.target, e.count).target == e.target;
    MintKeepsHonest(u, a, v, o);
    if Knows(u, q, e.target) {
      var p :| p in u && Observed(q.version, p.timestamp) && InsertsId(p, e.target);
      NewItemsAreFresh(u, a, v, o, e.target);
      OperationsAreNotItems(u + {o}, p, o);
    } else {
      var p :| p in u && Observed(q.version, p.timestamp) && p.timestamp == e.target;
      EditIsNoNewItem(u, a, v, o, p);
      if p.timestamp == o.timestamp { SameStampSameOperation(u + {o}, p, o); }
    }
  }

  /** The groups a commit leaves are all in force. */
  lemma {:induction false} CommitActs(a: set<Operation>, actor: ActorId, undo: seq<UndoEntry>, stack: seq<Group>, cursor: nat, g: Group, n: nat)
    requires AllAct(a, actor, undo, stack, cursor) && Acts(a, actor, undo, g, true) && n <= cursor + 1
    ensures var all := Candidates(stack, cursor, g);
            AllAct(a, actor, undo, all[n..], |all[n..]|)
  {
    hide Acts;
    var all := Candidates(stack, cursor, g);
    forall i | 0 <= i < |all[n..]|
      ensures Acts(a, actor, undo, all[n..][i], true)
    {
      assert all[n..][i] == all[n + i];
    }
  }

  /** Edits of other groups are counted by other identities. */
  lemma {:induction false} OthersUncounted(u: set<Operation>, a: set<Operation>, actor: ActorId, undo: seq<UndoEntry>, undo': seq<UndoEntry>,
                                           o: Operation, h: Group, active: bool)
    requires Honest(u) && a <= u && o in u && CountedOnce(undo, undo', o)
    requires Acts(a, actor, undo, h, active) && h.id != o.timestamp
    ensures Acts(a, actor, undo', h, active)
  {
    var p :| ActsAs(a, actor, undo, h, active, p);
    forall t | Counts(p, t)
      ensures !Counts(o, t)
    {
      CountedApart(u, o, p, t);
    }
    CountedTurns(undo, undo', o);
    hide Honest, Counts, Records, CountedOnce, Undone;
    assert ActsAs(a, actor, undo', h, active, p);
  }

  lemma {:induction false} CountedApart(u: set<Operation>, o: Operation, p: Operation, t: Identity)
    requires Honest(u) && o in u && p in u && o.timestamp != p.timestamp && Counts(p, t)
    ensures !Counts(o, t)
  {
    OperationsAreNotItems(u, o, p);
    OperationsAreNotItems(u, p, o);
    if InsertsId(o, t) && InsertsId(p, t) { ItemsAreUnique(u, o, p, t); }
  }

  /** The one that was counted has turned. */
  lemma {:induction false} CountedActs(a: set<Operation>, actor: ActorId, undo: seq<UndoEntry>, undo': seq<UndoEntry>, o: Operation, g: Group,
                                       active: bool)
    requires ActsAs(a, actor, undo, g, active, o) && CountedOnce(undo, undo', o)
    ensures Acts(a, actor, undo', g, !active)
  {
    CountedTurns(undo, undo', o);
    hide CountedOnce, InForce, Withdrawn, Records;
    assert ActsAs(a, actor, undo', g, !active, o);
  }

  /** Undoing a group moves it across the cursor as its counts turn. */
  lemma {:induction false} UndoneActs(u: set<Operation>, a: set<Operation>, actor: ActorId, undo: seq<UndoEntry>, undo': seq<UndoEntry>,
                                      stack: seq<Group>, cursor: nat, i: nat, o: Operation)
    requires Honest(u) && a <= u && AllAct(a, actor, undo, stack, cursor) && NamesApart(stack) && i < cursor
    requires ActsAs(a, actor, undo, stack[i], true, o) && CountedOnce(undo, undo', o)
    ensures AllAct(a, actor, undo', Undoing(stack, cursor, i), cursor - 1)
  {
    assert o in u && o.timestamp == stack[i].id;
    CountedActs(a, actor, undo, undo', o, stack[i], true);
    hide Honest, Acts, ActsAs, CountedOnce, Undoing;
    var r := Undoing(stack, cursor, i);
    UndoingSize(stack, cursor, i);
    forall j | 0 <= j < |r|
      ensures Acts(a, actor, undo', r[j], j < cursor - 1)
    {
      var k := UndoingFrom(stack, cursor, i, j);
      assert Acts(a, actor, undo, stack[k], k < cursor);
      if k != i { OthersUncounted(u, a, actor, undo, undo', o, stack[k], k < cursor); }
    }
  }

  lemma {:induction false} UndoingSize(stack: seq<Group>, cursor: nat, i: nat)
    requires i < cursor <= |stack|
    ensures |Undoing(stack, cursor, i)| == |stack|
  {
  }

  /** Where the group at place `j` comes from. */
  lemma {:induction false} UndoingFrom(stack: seq<Group>, cursor: nat, i: nat, j: nat) returns (k: nat)
    requires i < cursor <= |stack| && j < |stack|
    ensures k < |stack| && j < |Undoing(stack, cursor, i)| && Undoing(stack, cursor, i)[j] == stack[k]
    ensures if j == cursor - 1 then k == i else k != i && (k < cursor <==> j < cursor - 1)
  {
    k := if j == cursor - 1 then i else if i <= j < cursor - 1 then j + 1 else j;
  }

  lemma {:induction false} RedoneActs(u: set<Operation>, a: set<Operation>, actor: ActorId, undo: seq<UndoEntry>, undo': seq<UndoEntry>,
                                      stack: seq<Group>, cursor: nat, i: nat, o: Operation)
    requires Honest(u) && a <= u && AllAct(a, actor, undo, stack, cursor) && NamesApart(stack) && cursor <= i < |stack|
    requires ActsAs(a, actor, undo, stack[i], false, o) && CountedOnce(undo, undo', o)
    ensures AllAct(a, actor, undo', Redoing(stack, cursor, i), cursor + 1)
  {
    assert o in u && o.timestamp == stack[i].id;
    CountedActs(a, actor, undo, undo', o, stack[i], false);
    hide Honest, Acts, ActsAs, CountedOnce, Redoing;
    var r := Redoing(stack, cursor, i);
    RedoingSize(stack, cursor, i);
    forall j | 0 <= j < |r|
      ensures Acts(a, actor, undo', r[j], j < cursor + 1)
    {
      var k := RedoingFrom(stack, cursor, i, j);
      assert Acts(a, actor, undo, stack[k], k < cursor);
      if k != i { OthersUncounted(u, a, actor, undo, undo', o, stack[k], k < cursor); }
    }
  }

  lemma {:induction false} RedoingSize(stack: seq<Group>, cursor: nat, i: nat)
    requires cursor <= i < |stack|
    ensures |Redoing(stack, cursor, i)| == |stack|
  {
  }

  /** Where the group at place `j` comes from. */
  lemma {:induction false} RedoingFrom(stack: seq<Group>, cursor: nat, i: nat, j: nat) returns (k: nat)
    requires cursor <= i < |stack| && j < |stack|
    ensures k < |stack| && j < |Redoing(stack, cursor, i)| && Redoing(stack, cursor, i)[j] == stack[k]
    ensures if j == cursor then k == i else k != i && (k < cursor <==> j < cursor + 1)
  {
    k := if j == cursor then i else if cursor < j <= i then j - 1 else j;
  }

  /** One edit was undone: it is the one the group records, everything it is counted
      by went up by one, and the document shows what that means. */
  ghost predicate Undid(a: set<Operation>, g: Group, undo: seq<UndoEntry>, items: seq<Item>, undo': seq<UndoEntry>, items': seq<Item>) {
    exists o :: o in a && Records(g, o) && CountedOnce(undo, undo', o) && Reverts(o, undo, items, items')
  }

  ghost predicate Redid(a: set<Operation>, g: Group, undo: seq<UndoEntry>, items: seq<Item>, undo': seq<UndoEntry>, items': seq<Item>) {
    exists o :: o in a && Records(g, o) && CountedOnce(undo, undo', o) && Reinstates(o, undo, items, items')
  }

  lemma {:induction false} RaisedIsCounted(undo: seq<UndoEntry>, undo': seq<UndoEntry>, g: Group, o: Operation)
    requires Records(g, o) && Raised(undo, undo', TargetsOf(g))
    ensures CountedOnce(undo, undo', o)
  {
    TargetsAreCounted(g, o);
    hide Records, TargetsOf, Counts, MaxCount;
  }

  /** What undoing a group does, from its counts. */
  lemma {:induction false} UndoneGroup(u: set<Operation>, a: set<Operation>, actor: ActorId, items: seq<Item>, undo: seq<UndoEntry>, undo': seq<UndoEntry>,
                                       stack: seq<Group>, cursor: nat, i: nat)
    requires Honest(u) && a <= u && Represents(a, items, undo) && AllAct(a, actor, undo, stack, cursor) && NamesApart(stack)
    requires i < cursor && Raised(undo, undo', TargetsOf(stack[i]))
    ensures Undid(a, stack[i], undo, items, undo', ShowAll(items, undo'))
    ensures AllAct(a, actor, undo', Undoing(stack, cursor, i), cursor - 1)
  {
    assert Acts(a, actor, undo, stack[i], true);
    var o :| ActsAs(a, actor, undo, stack[i], true, o);
    RaisedIsCounted(undo, undo', stack[i], o);
    UndoReverts(u, a, items, undo, undo', o);
    UndoneActs(u, a, actor, undo, undo', stack, cursor, i, o);
    hide Honest, Represents, AllAct, Records, CountedOnce, Reverts, Raised, Undoing;
  }

  lemma {:induction false} RedoneGroup(u: set<Operation>, a: set<Operation>, actor: ActorId, items: seq<Item>, undo: seq<UndoEntry>, undo': seq<UndoEntry>,
                                       stack: seq<Group>, cursor: nat, i: nat)
    requires Honest(u) && a <= u && Represents(a, items, undo) && AllAct(a, actor, undo, stack, cursor) && NamesApart(stack)
    requires cursor <= i < |stack| && Raised(undo, undo', TargetsOf(stack[i]))
    ensures Redid(a, stack[i], undo, items, undo', ShowAll(items, undo'))
    ensures AllAct(a, actor, undo', Redoing(stack, cursor, i), cursor + 1)
  {
    assert Acts(a, actor, undo, stack[i], false);
    var o :| ActsAs(a, actor, undo, stack[i], false, o);
    RaisedIsCounted(undo, undo', stack[i], o);
    RedoReinstates(u, a, items, undo, undo', o);
    RedoneActs(u, a, actor, undo, undo', stack, cursor, i, o);
    hide Honest, Represents, AllAct, Records, CountedOnce, Reinstates, Raised, Redoing;
  }
}
