/** Local edits on the fast paths: appending, inserting between runs, deleting and
    replacing a visible range. Each either does exactly what the general path
    does, or refuses and leaves the edit to it. */
module FastEdits {
  import opened Ids
  import opened VersionVectors
  import opened FugueOrder
  import opened FugueLaws
  import opened Fragments
  import opened Histories
  import opened SequenceOrder
  import opened Indexes
  import opened DeletionPacking
  import opened DeletionRuns
  import opened Representation
  import opened Delivery
  import opened VisibleText
  import opened LocalPlacement
  import opened LocalEdits
  import opened LocalOperations
  import opened MiddleInsertion
  import opened VisibleRuns
  import opened StagedRuns
  import opened RunPublication
  import opened RunRows
  import opened VisibleEdits
  import opened WholeRuns

  // ---- One range, at most one run ----------------------------------------

  function Recs(rec: Option<InsertedRun>): seq<InsertedRun> {
    if rec.Some? then [rec.value] else []
  }

  function RunOf(rec: Option<InsertedRun>): seq<Item> {
    if rec.Some? then ItemsOf(RunFragment(rec.value)) else []
  }

  /** The new run carries the text and the link for its place, under the next
      identities; an empty text makes no run. */
  ghost predicate RecFits(doc: Doc, actor: ActorId, next: nat, p: nat, text: seq<Scalar>, rec: Option<InsertedRun>) {
    && Linked(doc) && p <= |doc|
    && (if text == [] then rec.None?
        else
          && (LeftAt(doc, p).Some? ==> Has(doc, LeftAt(doc, p).value))
          && rec == Some(InsertedRun(Identity(actor, next), FugueLaws.MintLink(doc, LeftAt(doc, p)), text, false)))
  }

  /** The operation of the edit. */
  ghost predicate IsEmitted(actor: ActorId, next: nat, v: Version, text: seq<Scalar>, rec: Option<InsertedRun>, o: Operation) {
    && o.Edit? && !o.markerEdit && o.version == v && o.inserts == Recs(rec)
    && o.timestamp == Identity(actor, next + |text|) && o.ranges == 1
  }

  /** The two numbers of deletion runs: packing the identities one by one, or, with
      one range, the pieces of the runs it covers. */
  ghost predicate Packed(frags: seq<Fragment>, ranges: seq<Range>, o: Operation)
    requires o.Edit?
  {
    || |o.deletions| == FlatRunCount(Items(frags), ranges)
    || (|ranges| == 1 && |o.deletions| == StagedRunCount(frags, ranges[0]))
  }

  ghost function EditedItems(items: seq<Item>, r: Range, d: Identity, p: nat, rec: Option<InsertedRun>): seq<Item>
    requires p <= |items|
  {
    Splice(HideRanges(items, [r], d), p, RunOf(rec))
  }

  lemma {:induction false} MintedRange(frags: seq<Fragment>, actor: ActorId, next: nat, r: Range, text: seq<Scalar>, p: nat, rec: Option<InsertedRun>)
    requires Valid(DocOf(frags)) && Below(DocOf(frags), next) && InSequence([r], |Text(Items(frags))|)
    requires IsPlace(Items(frags), r.start, p) && RecFits(DocOf(frags), actor, next, p, text, rec)
    ensures Linked(NodesOf(Items(frags)))
    ensures MintedSoFar(Items(frags), [r], [text], Recs(rec), [p], [RunOf(rec)]) && MintedInTurn(Recs(rec), actor, next, next + |text|)
  {
    hide *;
    DocIsNodes(frags);
    ValidIsLinked(DocOf(frags));
    RecParts(DocOf(frags), actor, next, p, text, rec);
    StartMinting(frags, [r], [text]);
    assert [r][..1] == [r] && [text][..1] == [text];
    if text == [] {
      SkipEmpty(frags, [r], [text], 0, [], [], [], p);
      assert [] + [p] == [p] && [] + [[]] == [RunOf(rec)];
    } else {
      MintOne(frags, [r], [text], actor, next, 0, [], next, [], [], p, rec.value);
      TextLength(rec.value);
      InTurnStep([], actor, next, next, rec.value);
      assert [] + [rec.value] == Recs(rec) && [] + [p] == [p] && [] + [ItemsOf(RunFragment(rec.value))] == [RunOf(rec)];
    }
  }

  lemma {:induction false} RecParts(doc: Doc, actor: ActorId, next: nat, p: nat, text: seq<Scalar>, rec: Option<InsertedRun>)
    requires RecFits(doc, actor, next, p, text, rec)
    ensures Linked(doc) && p <= |doc|
    ensures text == [] ==> rec.None? && Recs(rec) == [] && RunOf(rec) == []
    ensures text != [] ==> rec.Some? && Recs(rec) == [rec.value] && RunOf(rec) == ItemsOf(RunFragment(rec.value))
    ensures text != [] ==> (LeftAt(doc, p).Some? ==> Has(doc, LeftAt(doc, p).value))
                           && rec.value == InsertedRun(Identity(actor, next), FugueLaws.MintLink(doc, LeftAt(doc, p)), text, false)
  {
  }

  /** With one run to place, its place is where it goes. */
  lemma {:induction false} PlacedOne(u: set<Operation>, a: set<Operation>, o: Operation, base: seq<Item>, p: nat)
    requires Next(u, a, o) && o.Edit? && |o.inserts| == 1 && Partly(a, o, 0, base)
    requires Valid(NodesOf(base)) && Minted(NodesOf(base), RunFragments(o.inserts), [p])
    ensures p <= |base| && Places([p], |base|)
    ensures Woven(base, [p], RunItems(RunFragments(o.inserts))) == Splice(base, p, ItemsOf(RunFragment(o.inserts[0])))
    ensures Partly(a, o, 1, Splice(base, p, ItemsOf(RunFragment(o.inserts[0]))))
  {
    var fs := RunFragments(o.inserts);
    MintedPlaces(base, fs, p);
    RunCanGo(u, a, o, 0, base);
    StartPlaced(base, fs, [p]);
    NothingWoven(base, [p], RunItems(fs));
    assert PlacedSoFar(base, fs, [p], 0, base);
    PlacedNext(base, fs, [p], 0, base);
    var items := Splice(base, Place(NodesOf(base), FirstNode(fs[0])), ItemsOf(fs[0]));
    AllPlaced(base, fs, [p], items);
    PlacedIsValid(base, fs, [p], items);
    hide *;
    SplicedIsPartly(u, a, o, 0, base, Place(NodesOf(base), FirstNode(fs[0])));
    WovenOne(base, fs, p);
  }

  lemma {:induction false} MintedPlaces(base: seq<Item>, fs: seq<Fragment>, p: nat)
    requires Linked(NodesOf(base)) && Minted(NodesOf(base), fs, [p])
    ensures Places([p], |base|) && p <= |base| && |fs| == 1
  {
    assert [p][0] <= |base|;
  }

  lemma {:induction false} PlacedIsValid(base: seq<Item>, fs: seq<Fragment>, ps: seq<nat>, items: seq<Item>)
    requires PlacedSoFar(base, fs, ps, |fs|, items)
    ensures Valid(NodesOf(items))
  {
  }

  lemma {:induction false} WovenOne(base: seq<Item>, fs: seq<Fragment>, p: nat)
    requires p <= |base| && |fs| == 1 && Places([p], |base|)
    ensures Woven(base, [p], RunItems(fs)) == Splice(base, p, ItemsOf(fs[0]))
  {
    WovenUnfold(base, [p], RunItems(fs));
    assert Woven(base[..p], [p][..0], RunItems(fs)[..0]) == base[..p];
  }

  /** The edit's operation may be minted and is next, and the edited items are all
      of it. */
  lemma {:induction false} PrepareFast(u: set<Operation>, a: set<Operation>, frags: seq<Fragment>, index: RunIndex, undo: seq<UndoEntry>,
                                       v: Version, next: nat, actor: ActorId, r: Range, text: seq<Scalar>, p: nat,
                                       rec: Option<InsertedRun>, o: Operation)
    requires IsCurrent(u, a, frags, index, undo, v, next) && next > 0 && ValidActor(actor) && OwnApplied(u, a, actor)
    requires InSequence([r], |Text(Items(frags))|) && IsPlace(Items(frags), r.start, p)
    requires RecFits(DocOf(frags), actor, next, p, text, rec) && IsEmitted(actor, next, v, text, rec, o)
    requires forall id :: Covered(o.deletions, id) <==> id in ChosenIds(Items(frags), [r])
    requires forall x :: x in o.deletions ==> x.count > 0
    ensures Linked(NodesOf(Items(frags))) && p <= |Items(frags)|
    ensures MintedSoFar(Items(frags), [r], [text], Recs(rec), [p], [RunOf(rec)]) && MintedInTurn(Recs(rec), actor, next, o.timestamp.counter)
    ensures MintedFrom(u, a, v, o) && (Accepted(o) <==> WithinLimits(o)) && Next(u + {o}, a, o)
    ensures forall id :: Deletes(o, id) <==> id in ChosenIds(Items(frags), [r])
    ensures Partly(a, o, |o.inserts|, EditedItems(Items(frags), r, o.timestamp, p, rec))
    ensures Places(KeptPlaces([p], [RunOf(rec)]), |Items(frags)|)
    ensures EditedItems(Items(frags), r, o.timestamp, p, rec)
            == Woven(HideRanges(Items(frags), [r], o.timestamp), KeptPlaces([p], [RunOf(rec)]), RunItems(RunFragments(Recs(rec))))
  {
    hide *;
    var items := Items(frags);
    CurrentDoc(u, a, frags, index, undo, v, next);
    EmittedParts(actor, next, v, text, rec, o);
    RecParts(DocOf(frags), actor, next, p, text, rec);
    PlaceIsInside(items, r.start, p);
    MintedRange(frags, actor, next, r, text, p, rec);
    PrepareEdit(u, a, frags, index, undo, v, next, actor, [r], [text], Recs(rec), [p], [RunOf(rec)], o);
    var hidden := HideRanges(items, [r], o.timestamp);
    if text == [] {
      KeptNone(p);
      WovenNone(hidden, RunItems(RunFragments([])));
      assert Splice(hidden, p, []) == hidden by { SpliceNothing(hidden, p); }
      EditedIs(items, r, o.timestamp, p, rec);
    } else {
      NewRunText(rec.value);
      KeptOne(p, RunOf(rec));
      PlacedOne(u + {o}, a, o, hidden, p);
      EditedIs(items, r, o.timestamp, p, rec);
    }
  }

  lemma {:induction false} EditedIs(items: seq<Item>, r: Range, d: Identity, p: nat, rec: Option<InsertedRun>)
    requires p <= |items|
    ensures EditedItems(items, r, d, p, rec) == Splice(HideRanges(items, [r], d), p, RunOf(rec))
  {
  }

  lemma {:induction false} CurrentDoc(u: set<Operation>, a: set<Operation>, frags: seq<Fragment>, index: RunIndex, undo: seq<UndoEntry>,
                                      v: Version, next: nat)
    requires IsCurrent(u, a, frags, index, undo, v, next)
    ensures Valid(DocOf(frags)) && Distinct(DocOf(frags)) && Below(DocOf(frags), next) && NonEmptyRuns(frags)
    ensures Honest(u) && Closed(u, a) && IsFrontier(a, v) && UndoTold(a, undo) && forall b :: b in v ==> v[b] < next
    ensures index.valid ==> Coherent(frags, index)
  {
    DocumentBelow(u, a, Items(frags), v, next);
  }

  lemma {:induction false} EmittedParts(actor: ActorId, next: nat, v: Version, text: seq<Scalar>, rec: Option<InsertedRun>, o: Operation)
    requires IsEmitted(actor, next, v, text, rec, o)
    ensures o.Edit? && !o.markerEdit && o.version == v && o.inserts == Recs(rec)
    ensures o.timestamp == Identity(actor, next + |text|) && o.ranges == 1
  {
  }

  lemma {:induction false} KeptNone(p: nat)
    ensures KeptPlaces([p], [[]]) == []
    ensures forall n :: Places(KeptPlaces([p], [[]]), n)
  {
    assert [p][..0] == [];
  }

  lemma {:induction false} KeptOne(p: nat, run: seq<Item>)
    requires run != []
    ensures KeptPlaces([p], [run]) == [p]
  {
    assert [p][..0] == [] && [run][..0] == [];
  }

  lemma {:induction false} WovenNone(base: seq<Item>, runs: seq<seq<Item>>)
    requires runs == []
    ensures Places([], |base|) && Woven(base, [], runs) == base
  {
  }

  lemma {:induction false} SpliceNothing(base: seq<Item>, p: nat)
    requires p <= |base|
    ensures Splice(base, p, []) == base
  {
  }

  /** The runs that hold the edited items are the document after the edit. */
  lemma {:induction false} FinishFast(u: set<Operation>, a: set<Operation>, frags: seq<Fragment>, index: RunIndex, undo: seq<UndoEntry>,
                                      v: Version, next: nat, actor: ActorId, r: Range, text: seq<Scalar>, p: nat,
                                      rec: Option<InsertedRun>, o: Operation, all: seq<Fragment>, index': RunIndex)
    requires IsCurrent(u, a, frags, index, undo, v, next) && next > 0 && ValidActor(actor) && OwnApplied(u, a, actor)
    requires InSequence([r], |Text(Items(frags))|) && IsPlace(Items(frags), r.start, p)
    requires RecFits(DocOf(frags), actor, next, p, text, rec) && IsEmitted(actor, next, v, text, rec, o)
    requires forall id :: Covered(o.deletions, id) <==> id in ChosenIds(Items(frags), [r])
    requires forall x :: x in o.deletions ==> x.count > 0
    requires |o.deletions| <= if r.start < r.end then r.end - r.start else 0
    requires p <= |Items(frags)| && Items(all) == EditedItems(Items(frags), r, o.timestamp, p, rec)
    requires NonEmptyRuns(all) && index'.valid && Coherent(all, index') && Spends(index, |all| + 1, index')
    requires Packed(frags, [r], o)
    ensures IsDone(u, a, frags, undo, v, next, actor, [r], [text], o, all, index')
  {
    hide *;
    PrepareFast(u, a, frags, index, undo, v, next, actor, r, text, p, rec, o);
    EmittedParts(actor, next, v, text, rec, o);
    ValidIsKept(all, index');
    RemovedOne(r);
    FinishEdit(u, a, frags, index, undo, v, next, actor, [r], [text], Recs(rec), [p], [RunOf(rec)], o, all, all, index');
    DoneIs(u, a, frags, undo, v, next, actor, [r], [text], o, all, index');
  }

  lemma {:induction false} ValidIsKept(all: seq<Fragment>, index: RunIndex)
    requires index.valid && Coherent(all, index)
    ensures IndexKept(all, index)
  {
  }

  /** What a finished edit has reached: everything the general path promises. */
  ghost predicate IsDone(u: set<Operation>, a: set<Operation>, frags: seq<Fragment>, undo: seq<UndoEntry>, v: Version, next: nat,
                         actor: ActorId, ranges: seq<Range>, news: seq<seq<Scalar>>, o: Operation, frags': seq<Fragment>, index': RunIndex) {
    && o.Edit? && MintedFrom(u, a, v, o) && (Accepted(o) <==> WithinLimits(o))
    && IsCurrent(u + {o}, a + {o}, frags', index', undo, Observe(v, o.timestamp), o.timestamp.counter + 1)
    && OwnApplied(u + {o}, a + {o}, actor)
    && IsEdit(Items(frags), ranges, news, actor, next, o, Items(frags'))
    && |ranges| == |news| && InSequence(ranges, |Text(Items(frags))|) && Packed(frags, ranges, o)
    && Text(Items(frags')) == Edited(Text(Items(frags)), ranges, news)
  }

  lemma {:induction false} DoneIs(u: set<Operation>, a: set<Operation>, frags: seq<Fragment>, undo: seq<UndoEntry>, v: Version, next: nat,
                                  actor: ActorId, ranges: seq<Range>, news: seq<seq<Scalar>>, o: Operation, frags': seq<Fragment>, index': RunIndex)
    requires o.Edit? && MintedFrom(u, a, v, o) && (Accepted(o) <==> WithinLimits(o))
    requires IsCurrent(u + {o}, a + {o}, frags', index', undo, Observe(v, o.timestamp), o.timestamp.counter + 1)
    requires OwnApplied(u + {o}, a + {o}, actor)
    requires IsEdit(Items(frags), ranges, news, actor, next, o, Items(frags'))
    requires |ranges| == |news| && InSequence(ranges, |Text(Items(frags))|) && Packed(frags, ranges, o)
    requires Text(Items(frags')) == Edited(Text(Items(frags)), ranges, news)
    ensures IsDone(u, a, frags, undo, v, next, actor, ranges, news, o, frags', index')
  {
  }

  // ---- Where the new run goes --------------------------------------------

  /** Link and rank put the run right after the visible scalar before the range. */
  ghost predicate Spot(frags: seq<Fragment>, r: Range, link: Link, rank: nat, p: nat) {
    && Linked(DocOf(frags)) && IsPlace(Items(frags), r.start, p) && p <= |DocOf(frags)|
    && (LeftAt(DocOf(frags), p).Some? ==> Has(DocOf(frags), LeftAt(DocOf(frags), p).value))
    && link == FugueLaws.MintLink(DocOf(frags), LeftAt(DocOf(frags), p))
  }

  /** Inside a run the next item is the right child of the one before it, so the
      new run becomes that next item's left child. */
  lemma {:induction false} InteriorSpot(frags: seq<Fragment>, r: Range, i: nat, k: nat)
    requires NonEmptyRuns(frags) && Valid(DocOf(frags)) && i < |frags| && Shows(frags[i]) && 0 < k < |frags[i].text|
    requires r.start == RunStart(frags, i) + k
    ensures Spot(frags, r, Link(Some(ItemAt(frags[i], k)), Left, Some(ItemAt(frags[i], k))), i + 1, Start(frags, i) + k)
  {
    hide *;
    var doc, p: nat := DocOf(frags), Start(frags, i) + k;
    ValidIsLinked(doc);
    FoundPlace(frags, i, k);
    InteriorItem(frags, i, k);
    LeftAtIsThere(doc, p);
    InteriorLink(doc, p, ItemAt(frags[i], k), ItemAt(frags[i], k - 1));
    IsSpot(frags, r, Link(Some(ItemAt(frags[i], k)), Left, Some(ItemAt(frags[i], k))), i + 1, p);
  }

  lemma {:induction false} InteriorItem(frags: seq<Fragment>, i: nat, k: nat)
    requires Linked(DocOf(frags)) && i < |frags| && Shows(frags[i]) && 0 < k < |frags[i].text|
    ensures Distinct(DocOf(frags)) && 0 < Start(frags, i) + k < |DocOf(frags)|
    ensures Has(DocOf(frags), ItemAt(frags[i], k)) && Index(DocOf(frags), ItemAt(frags[i], k)) == Start(frags, i) + k
    ensures DocOf(frags)[Start(frags, i) + k].id == ItemAt(frags[i], k)
    ensures DocOf(frags)[Start(frags, i) + k].link.parent == Some(ItemAt(frags[i], k - 1))
  {
    hide Items, DocOf, Start, FugueOrder.Index, Has, Distinct;
    PosIndex(frags, Pos(i, k));
  }

  lemma {:induction false} IsSpot(frags: seq<Fragment>, r: Range, link: Link, rank: nat, p: nat)
    requires Linked(DocOf(frags)) && IsPlace(Items(frags), r.start, p) && p <= |DocOf(frags)|
    requires LeftAt(DocOf(frags), p).Some? ==> Has(DocOf(frags), LeftAt(DocOf(frags), p).value)
    requires link == FugueLaws.MintLink(DocOf(frags), LeftAt(DocOf(frags), p))
    ensures Spot(frags, r, link, rank, p)
  {
  }

  lemma {:induction false} InteriorLink(doc: Doc, p: nat, right: Identity, left: Identity)
    requires Linked(doc) && 0 < p < |doc| && doc[p].id == right && doc[p].link.parent == Some(left) && LeftAt(doc, p) == Some(left)
    requires Has(doc, left) && Has(doc, right) && FugueLaws.After(doc, Some(left)) == p && Index(doc, right) == p
    ensures FugueLaws.MintLink(doc, Some(left)) == Link(Some(right), Left, Some(right))
  {
    assert ParentOf(doc, right) == Some(left);
    assert Under(doc, right, Some(left));
  }

  lemma {:induction false} SlotSpot(frags: seq<Fragment>, r: Range, link: Link, rank: nat)
    requires IsSlot(frags, r.start, link, rank)
    ensures Spot(frags, r, link, rank, Start(frags, rank))
  {
  }

  /** After the last item, when that is a visible scalar. */
  lemma {:induction false} TailSlot(frags: seq<Fragment>, start: nat, link: Link)
    requires NonEmptyRuns(frags) && Valid(DocOf(frags)) && start == |Text(Items(frags))|
    requires frags != [] ==> Shows(frags[|frags| - 1])
    requires link == Link(if frags == [] then None
                          else Some(ItemAt(frags[|frags| - 1], Length(frags[|frags| - 1]) - 1)), Right, None)
    ensures IsSlot(frags, start, link, |frags|)
  {
    var doc, n := DocOf(frags), |Items(frags)|;
    StartEnds(frags);
    LeftAtIsThere(doc, n);
    OffsetEnds(Items(frags));
    if frags != [] { LastItem(frags); }
    hide Items, Text, Start, Ordered, Offset, Distinct;
  }

  lemma {:induction false} LastItem(frags: seq<Fragment>)
    requires NonEmptyRuns(frags) && frags != []
    ensures |Items(frags)| > 0
    ensures DocOf(frags)[|Items(frags)| - 1].id == ItemAt(frags[|frags| - 1], Length(frags[|frags| - 1]) - 1)
    ensures Shows(frags[|frags| - 1]) ==> IsText(Items(frags)[|Items(frags)| - 1])
  {
    var at := Pos(|frags| - 1, Length(frags[|frags| - 1]) - 1);
    FlatNext(frags, at);
    FlatEnd(frags, NextPos(frags, at));
    FlatItem(frags, at);
  }

  /** Where the new run stands among the staged items. */
  lemma {:induction false} StagedSpot(frags: seq<Fragment>, r: Range, d: Identity, rank: nat, head: Target)
    requires CoveredBelow(frags, r, |frags|) != [] && head == CoveredBelow(frags, r, |frags|)[0] && InsertsAt(frags, r, rank)
    ensures head.frag < |frags| && rank <= |Staged(frags, r, d, 0, |frags|)|
    ensures Start(Staged(frags, r, d, 0, |frags|), rank)
            == if head.off > 0 then Start(frags, head.frag) + head.off else Start(frags, rank)
  {
    TargetAt(frags, r, d, 0);
    LastGap(frags, r, d);
    InsertsWhere(frags, r, Some(rank));
    CoveredBounds(frags, head.frag, r);
    InteriorFront(frags, r, d, head.frag);
    hide *;
    HeadIsStaged(frags, r, d, head.frag, 0);
    StagedJoin(frags, r, d, 0, head.frag + 1, |frags|);
    HeadPrefix(frags, Staged(frags, r, d, 0, |frags|), head.frag, StagedRun(frags, r, d, head.frag),
      Staged(frags, r, d, head.frag + 1, |frags|), rank, head.off);
  }

  lemma {:induction false} InteriorFront(frags: seq<Fragment>, r: Range, d: Identity, i: nat)
    requires i < |frags| && IsCovered(frags, i, r) && !frags[i].marker && CoverLast(frags, i, r) <= |frags[i].text|
    ensures CoveredPart(frags, i, r).off > 0 ==>
              CoveredPart(frags, i, r).off <= |frags[i].text| && StagedRun(frags, r, d, i)[0] == Prefix(frags[i], CoveredPart(frags, i, r).off)
  {
    hide RunStart;
  }

  lemma {:induction false} HeadPrefix(frags: seq<Fragment>, staged: seq<Fragment>, head: nat, run: seq<Fragment>, rest: seq<Fragment>,
                                      rank: nat, off: nat)
    requires head < |frags| && staged == frags[0..head] + run + rest && run != []
    requires if off > 0 then rank == head + 1 && !frags[head].marker && off <= |frags[head].text| && run[0] == Prefix(frags[head], off)
             else rank <= head
    ensures rank <= |staged|
    ensures Start(staged, rank) == if off > 0 then Start(frags, head) + off else Start(frags, rank)
  {
    if off > 0 {
      assert staged[..rank] == frags[..head] + [Prefix(frags[head], off)];
      ItemsConcat(frags[..head], [Prefix(frags[head], off)]);
      ItemsSingle(Prefix(frags[head], off));
    } else {
      assert staged[..rank] == frags[..rank];
    }
  }

  // ---- Deleting and replacing a visible range ----------------------------

  /** Nothing is undone under an identity this replica is about to mint. */
  lemma {:induction false} NewIsNotUndone(u: set<Operation>, a: set<Operation>, frags: seq<Fragment>, index: RunIndex, undo: seq<UndoEntry>,
                                          v: Version, next: nat, actor: ActorId, n: nat)
    requires IsCurrent(u, a, frags, index, undo, v, next) && OwnApplied(u, a, actor)
    ensures !Undone(undo, Identity(actor, next + n))
  {
    FreshIsNotUndone(u, a, v, actor, next, undo, Identity(actor, next + n));
  }

  /** An operation with deletions that name just the range. */
  ghost function Draft(frags: seq<Fragment>, actor: ActorId, next: nat, v: Version, r: Range, text: seq<Scalar>, rec: Option<InsertedRun>): Operation {
    Edit(Identity(actor, next + |text|), v, false, Recs(rec), Segments(frags, CoveredBelow(frags, r, |frags|)), 1)
  }

  lemma {:induction false} DraftFits(frags: seq<Fragment>, actor: ActorId, next: nat, v: Version, r: Range, text: seq<Scalar>, rec: Option<InsertedRun>)
    ensures var o := Draft(frags, actor, next, v, r, text, rec);
            && IsEmitted(actor, next, v, text, rec, o)
            && (forall id :: Covered(o.deletions, id) <==> id in ChosenIds(Items(frags), [r]))
            && (forall x :: x in o.deletions ==> x.count > 0)
            && o.timestamp == Identity(actor, next + |text|)
  {
    var o := Draft(frags, actor, next, v, r, text, rec);
    forall id
      ensures Covered(o.deletions, id) <==> id in ChosenIds(Items(frags), [r])
    {
      SegmentsAreChosen(frags, r, id);
    }
    hide Covered, ChosenIds, CoveredBelow, Recs;
  }

  /** The staged runs hold the edited items, each once. */
  lemma {:induction false} StagedEdit(u: set<Operation>, a: set<Operation>, frags: seq<Fragment>, index: RunIndex, undo: seq<UndoEntry>,
                                      v: Version, next: nat, actor: ActorId, r: Range, text: seq<Scalar>, p: nat,
                                      rec: Option<InsertedRun>, insert: Option<nat>, f: Option<Fragment>)
    requires IsCurrent(u, a, frags, index, undo, v, next) && next > 0 && ValidActor(actor) && OwnApplied(u, a, actor)
    requires InSequence([r], |Text(Items(frags))|) && IsPlace(Items(frags), r.start, p)
    requires RecFits(DocOf(frags), actor, next, p, text, rec) && CoveredBelow(frags, r, |frags|) != []
    requires f == (if rec.Some? then Some(RunFragment(rec.value)) else None) && (insert.Some? <==> f.Some?)
    requires insert.Some? ==> InsertsAt(frags, r, insert.value)
    requires insert.Some? ==> var head := CoveredBelow(frags, r, |frags|)[0];
                              && head.frag < |frags| && insert.value <= |frags|
                              && p == if head.off > 0 then Start(frags, head.frag) + head.off else Start(frags, insert.value)
    ensures insert.Some? ==> insert.value <= |Staged(frags, r, Identity(actor, next + |text|), 0, |frags|)|
    ensures p <= |Items(frags)|
    ensures var d := Identity(actor, next + |text|);
            && Items(RunsAfter(frags, r, d, insert, f)) == EditedItems(Items(frags), r, d, p, rec)
            && Distinct(DocOf(RunsAfter(frags, r, d, insert, f)))
  {
    hide *;
    var d, o := Identity(actor, next + |text|), Draft(frags, actor, next, v, r, text, rec);
    DraftFits(frags, actor, next, v, r, text, rec);
    PrepareFast(u, a, frags, index, undo, v, next, actor, r, text, p, rec, o);
    CurrentDoc(u, a, frags, index, undo, v, next);
    EmittedParts(actor, next, v, text, rec, o);
    PartlyIsValid(a, o, |o.inserts|, EditedItems(Items(frags), r, d, p, rec));
    InsertFits(frags, r, d, insert);
    RunsAfterItems(frags, r, d, insert, f, p, rec);
    DocIsNodes(RunsAfter(frags, r, d, insert, f));
    ValidIsLinked(NodesOf(EditedItems(Items(frags), r, d, p, rec)));
    LinkedIsDistinct(NodesOf(EditedItems(Items(frags), r, d, p, rec)));
  }

  lemma {:induction false} LinkedIsDistinct(doc: Doc)
    requires Linked(doc)
    ensures Distinct(doc)
  {
  }

  lemma {:induction false} RunsAfterItems(frags: seq<Fragment>, r: Range, d: Identity, insert: Option<nat>, f: Option<Fragment>, p: nat, rec: Option<InsertedRun>)
    requires NonEmptyRuns(frags) && CoveredBelow(frags, r, |frags|) != [] && p <= |Items(frags)|
    requires f == (if rec.Some? then Some(RunFragment(rec.value)) else None) && (insert.Some? <==> f.Some?)
    requires insert.Some? ==> InsertsAt(frags, r, insert.value) && insert.value <= |Staged(frags, r, d, 0, |frags|)|
    requires insert.Some? ==> var head := CoveredBelow(frags, r, |frags|)[0];
                              && head.frag < |frags| && insert.value <= |frags|
                              && p == if head.off > 0 then Start(frags, head.frag) + head.off else Start(frags, insert.value)
    ensures Items(RunsAfter(frags, r, d, insert, f)) == EditedItems(Items(frags), r, d, p, rec)
  {
    hide *;
    var staged, hidden := Staged(frags, r, d, 0, |frags|), HideRanges(Items(frags), [r], d);
    StagedItems(frags, r, d, |frags|);
    StartEnds(frags);
    assert hidden[..|Items(frags)|] == hidden;
    AfterIsPut(frags, r, d, insert, f);
    EditedIs(Items(frags), r, d, p, rec);
    PutIs(staged, insert, f);
    OneRun(rec, f);
    if insert.Some? {
      StagedSpot(frags, r, d, insert.value, CoveredBelow(frags, r, |frags|)[0]);
      InsertBetween(staged, insert.value, f.value);
    } else {
      SpliceNothing(hidden, p);
    }
  }

  lemma {:induction false} PutIs(staged: seq<Fragment>, insert: Option<nat>, f: Option<Fragment>)
    requires (insert.Some? <==> f.Some?) && (insert.Some? ==> insert.value <= |staged|)
    ensures PutRun(staged, insert, f) == if f.Some? then staged[..insert.value] + [f.value] + staged[insert.value..] else staged
  {
  }

  lemma {:induction false} OneRun(rec: Option<InsertedRun>, f: Option<Fragment>)
    requires f == (if rec.Some? then Some(RunFragment(rec.value)) else None)
    ensures RunOf(rec) == if f.Some? then ItemsOf(f.value) else []
  {
  }

  lemma {:induction false} RangeFits(r: Range, n: nat)
    requires r.start <= r.end <= n
    ensures InSequence([r], n)
  {
  }

  /** Delete a visible range. */
  method DeleteVisible(ghost u: set<Operation>, ghost a: set<Operation>, actor: ActorId, frags: seq<Fragment>, index: RunIndex, undo: seq<UndoEntry>,
                       v: Version, next: nat, r: Range)
    returns (done: bool, o: Operation, frags': seq<Fragment>, index': RunIndex)
    requires IsCurrent(u, a, frags, index, undo, v, next) && next > 0 && ValidActor(actor) && OwnApplied(u, a, actor)
    requires r.start <= r.end <= |Text(Items(frags))|
    ensures done ==> IsDone(u, a, frags, undo, v, next, actor, [r], [[]], o, frags', index')
  {
    hide *;
    var d := Identity(actor, next);
    done, o, frags', index' := false, Edit(d, v, false, [], [], 1), frags, index;
    if !index.valid || r.start >= r.end { return; }
    CurrentDoc(u, a, frags, index, undo, v, next);
    NewIsNotUndone(u, a, frags, index, undo, v, next, actor, 0);
    RangeFits(r, |Text(Items(frags))|);
    ghost var p := FindPlace(Items(frags), r.start);
    PlaceIsInside(Items(frags), r.start, p);
    NoRec(frags, actor, next, p);
    CoversSomething(frags, r);
    StagedEdit(u, a, frags, index, undo, v, next, actor, r, [], p, None, None, None);
    var published, all, index1, runs := DeleteWhole(frags, index, undo, r, d);
    if !published {
      var covered := CollectCovered(frags, index, r);
      published, all, index1, runs := PublishRuns(frags, index, undo, r, covered.value, d, None, None);
    }
    if !published { return; }
    o := Edit(d, v, false, [], runs, 1);
    EmittedNone(actor, next, v, o);
    PackedStaged(frags, r, o);
    FinishFast(u, a, frags, index, undo, v, next, actor, r, [], p, None, o, all, index1);
    done, frags', index' := true, all, index1;
  }

  lemma {:induction false} NoRec(frags: seq<Fragment>, actor: ActorId, next: nat, p: nat)
    requires Valid(DocOf(frags)) && p <= |Items(frags)|
    ensures RecFits(DocOf(frags), actor, next, p, [], None)
  {
    ValidIsLinked(DocOf(frags));
  }

  lemma {:induction false} EmittedNone(actor: ActorId, next: nat, v: Version, o: Operation)
    requires o.Edit? && !o.markerEdit && o.version == v && o.inserts == [] && o.timestamp == Identity(actor, next) && o.ranges == 1
    ensures IsEmitted(actor, next, v, [], None, o)
  {
  }

  /** What placement found for a replacement. */
  ghost predicate Placement(frags: seq<Fragment>, r: Range, link: Link, rank: nat, p: nat) {
    && CoveredBelow(frags, r, |frags|) != [] && InsertsAt(frags, r, rank) && Spot(frags, r, link, rank, p) && rank <= |frags|
    && var head := CoveredBelow(frags, r, |frags|)[0];
       && head.frag < |frags|
       && p == if head.off > 0 then Start(frags, head.frag) + head.off else Start(frags, rank)
  }

  /** Link and rank of the run that replaces a range: inside the first covered run
      they are known, at a boundary the climb decides. */
  method PlaceReplacement(frags: seq<Fragment>, index: RunIndex, r: Range, head: Target)
    returns (found: Option<(Link, nat)>, ghost p: nat)
    requires NonEmptyRuns(frags) && Valid(DocOf(frags)) && Coherent(frags, index) && r.start <= |Text(Items(frags))|
    requires CoveredBelow(frags, r, |frags|) != [] && head == CoveredBelow(frags, r, |frags|)[0]
    ensures found.Some? ==> Placement(frags, r, found.value.0, found.value.1, p)
  {
    hide *;
    HeadIsCovered(frags, r, head);
    p := 0;
    if head.off > 0 {
      var right := ItemAt(frags[head.frag], head.off);
      InteriorSpot(frags, r, head.frag, head.off);
      p := Start(frags, head.frag) + head.off;
      found := Some((Link(Some(right), Left, Some(right)), head.frag + 1));
    } else {
      found := SimpleMiddleInsertion(frags, index, r.start);
      if found.None? || found.value.1 > head.frag { return None, 0; }
      SlotSpot(frags, r, found.value.0, found.value.1);
      p := Start(frags, found.value.1);
    }
    IsPlacement(frags, r, head, found.value.0, found.value.1, p);
  }

  lemma {:induction false} HeadIsCovered(frags: seq<Fragment>, r: Range, head: Target)
    requires CoveredBelow(frags, r, |frags|) != [] && head == CoveredBelow(frags, r, |frags|)[0]
    ensures head.frag < |frags|
    ensures head.off > 0 ==> Shows(frags[head.frag]) && head.off < |frags[head.frag].text| && r.start == RunStart(frags, head.frag) + head.off
  {
    hide CoveredBelow, RunStart, Planned, StagedRun;
    TargetAt(frags, r, Identity(0, 0), 0);
  }

  lemma {:induction false} IsPlacement(frags: seq<Fragment>, r: Range, head: Target, link: Link, rank: nat, p: nat)
    requires CoveredBelow(frags, r, |frags|) != [] && head == CoveredBelow(frags, r, |frags|)[0] && head.frag < |frags|
    requires if head.off > 0 then rank == head.frag + 1 else rank <= head.frag
    requires Spot(frags, r, link, rank, p)
    requires p == if head.off > 0 then Start(frags, head.frag) + head.off else Start(frags, rank)
    ensures Placement(frags, r, link, rank, p)
  {
    hide CoveredBelow, Spot, Start;
  }

  lemma {:induction false} PlacementParts(frags: seq<Fragment>, r: Range, link: Link, rank: nat, p: nat)
    requires Placement(frags, r, link, rank, p)
    ensures CoveredBelow(frags, r, |frags|) != [] && InsertsAt(frags, r, rank) && rank <= |frags| && IsPlace(Items(frags), r.start, p)
    ensures var head := CoveredBelow(frags, r, |frags|)[0];
            head.frag < |frags| && p == if head.off > 0 then Start(frags, head.frag) + head.off else Start(frags, rank)
    ensures Spot(frags, r, link, rank, p)
  {
    hide CoveredBelow, Start, IsPlace, InsertsAt;
  }

  lemma {:induction false} SpotFits(frags: seq<Fragment>, r: Range, link: Link, rank: nat, p: nat, actor: ActorId, next: nat, text: seq<Scalar>)
    requires Spot(frags, r, link, rank, p) && text != []
    ensures IsPlace(Items(frags), r.start, p) && p <= |Items(frags)|
    ensures RecFits(DocOf(frags), actor, next, p, text, Some(InsertedRun(Identity(actor, next), link, text, false)))
  {
    hide IsPlace, Linked;
  }

  lemma {:induction false} EmittedRun(actor: ActorId, next: nat, v: Version, text: seq<Scalar>, rec: InsertedRun, o: Operation)
    requires o.Edit? && !o.markerEdit && o.version == v && o.inserts == [rec] && o.timestamp == Identity(actor, next + |text|) && o.ranges == 1
    ensures IsEmitted(actor, next, v, text, Some(rec), o)
  {
  }

  /** Replace a visible range by a text. */
  method ReplaceVisible(ghost u: set<Operation>, ghost a: set<Operation>, actor: ActorId, frags: seq<Fragment>, index: RunIndex, undo: seq<UndoEntry>,
                        v: Version, next: nat, r: Range, text: seq<Scalar>)
    returns (done: bool, o: Operation, frags': seq<Fragment>, index': RunIndex)
    requires IsCurrent(u, a, frags, index, undo, v, next) && next > 0 && ValidActor(actor) && OwnApplied(u, a, actor)
    requires r.start <= r.end <= |Text(Items(frags))|
    ensures done ==> IsDone(u, a, frags, undo, v, next, actor, [r], [text], o, frags', index')
  {
    hide *;
    var d := Identity(actor, next + |text|);
    done, o, frags', index' := false, Edit(d, v, false, [], [], 1), frags, index;
    if !index.valid || r.start >= r.end || text == [] { return; }
    CurrentDoc(u, a, frags, index, undo, v, next);
    NewIsNotUndone(u, a, frags, index, undo, v, next, actor, |text|);
    RangeFits(r, |Text(Items(frags))|);
    var covered := CollectCovered(frags, index, r);
    ghost var p;
    var found;
    found, p := PlaceReplacement(frags, index, r, covered.value[0]);
    if found.None? { return; }
    var rec := InsertedRun(Identity(actor, next), found.value.0, text, false);
    PlacementParts(frags, r, found.value.0, found.value.1, p);
    SpotFits(frags, r, found.value.0, found.value.1, p, actor, next, text);
    NewRunText(rec);
    var f, insert := Some(RunFragment(rec)), Some(found.value.1);
    StagedEdit(u, a, frags, index, undo, v, next, actor, r, text, p, Some(rec), insert, f);
    var published, all, index1, runs := ReplaceInRun(frags, index, undo, r, covered.value, d, found.value.1, f.value);
    if !published { published, all, index1, runs := PublishRuns(frags, index, undo, r, covered.value, d, insert, f); }
    if !published { return; }
    o := Edit(d, v, false, [rec], runs, 1);
    EmittedRun(actor, next, v, text, rec, o);
    PackedStaged(frags, r, o);
    FinishFast(u, a, frags, index, undo, v, next, actor, r, text, p, Some(rec), o, all, index1);
    done, frags', index' := true, all, index1;
  }

  // ---- Inserting between runs --------------------------------------------

  /** A right child of the last item, when that is a visible scalar. */
  method TailLink(frags: seq<Fragment>, start: nat) returns (link: Option<Link>)
    requires NonEmptyRuns(frags) && Valid(DocOf(frags)) && start <= |Text(Items(frags))|
    ensures link.Some? ==> IsSlot(frags, start, link.value, |frags|)
  {
    if start != |Text(Items(frags))| { return None; }
    if frags == [] {
      link := Some(Link(None, Right, None));
    } else {
      var tail := frags[|frags| - 1];
      if !Shows(tail) { return None; }
      link := Some(Link(Some(ItemAt(tail, Length(tail) - 1)), Right, None));
    }
    hide *;
    TailSlot(frags, start, link.value);
  }

  lemma {:induction false} InsertedItems(frags: seq<Fragment>, rank: nat, f: Fragment, start: nat, d: Identity, rec: InsertedRun)
    requires NonEmptyRuns(frags) && rank <= |frags| && f == RunFragment(rec) && Length(f) > 0
    ensures Start(frags, rank) <= |Items(frags)| && NonEmptyRuns(frags[..rank] + [f] + frags[rank..])
    ensures Items(frags[..rank] + [f] + frags[rank..]) == EditedItems(Items(frags), Range(start, start), d, Start(frags, rank), Some(rec))
    ensures ChosenIds(Items(frags), [Range(start, start)]) == {}
  {
    InsertBetween(frags, rank, f);
    EmptyRange(Items(frags), Range(start, start), d);
    hide Items, HideRanges, ChosenIds, Start, ItemsOf;
  }

  /** Insert a text where no run has to be split. */
  method InsertVisible(ghost u: set<Operation>, ghost a: set<Operation>, actor: ActorId, frags: seq<Fragment>, index: RunIndex, undo: seq<UndoEntry>,
                       v: Version, next: nat, start: nat, text: seq<Scalar>)
    returns (done: bool, o: Operation, frags': seq<Fragment>, index': RunIndex)
    requires IsCurrent(u, a, frags, index, undo, v, next) && next > 0 && ValidActor(actor) && OwnApplied(u, a, actor)
    requires start <= |Text(Items(frags))| && text != []
    ensures done ==> IsDone(u, a, frags, undo, v, next, actor, [Range(start, start)], [text], o, frags', index')
  {
    hide *;
    var r, d := Range(start, start), Identity(actor, next + |text|);
    done, o, frags', index' := false, Edit(d, v, false, [], [], 1), frags, index;
    if !index.valid { return; }
    CurrentDoc(u, a, frags, index, undo, v, next);
    RangeFits(r, |Text(Items(frags))|);
    var link := TailLink(frags, start);
    var rank: nat := |frags|;
    if link.None? {
      var found := SimpleMiddleInsertion(frags, index, start);
      if found.None? { return; }
      link, rank := Some(found.value.0), found.value.1;
    }
    SlotInside(frags, start, link.value, rank);
    SlotSpot(frags, r, link.value, rank);
    ghost var p := Start(frags, rank);
    var rec := InsertedRun(Identity(actor, next), link.value, text, false);
    SpotFits(frags, r, link.value, rank, p, actor, next, text);
    NewRunText(rec);
    var f := RunFragment(rec);
    InsertedItems(frags, rank, f, start, d, rec);
    o := Edit(d, v, false, [rec], [], 1);
    EmittedRun(actor, next, v, text, rec, o);
    NothingDeleted(o, Items(frags), r);
    PackedNone(frags, r, o);
    InsertIsDistinct(u, a, frags, index, undo, v, next, actor, r, text, p, rec, o, frags[..rank] + [f] + frags[rank..]);
    var ok, all, index1 := InsertAtRank(frags, index, f, rank);
    if !ok { return; }
    FinishFast(u, a, frags, index, undo, v, next, actor, r, text, p, Some(rec), o, all, index1);
    done, frags', index' := true, all, index1;
  }

  lemma {:induction false} SlotInside(frags: seq<Fragment>, start: nat, link: Link, rank: nat)
    requires IsSlot(frags, start, link, rank)
    ensures rank <= |frags|
  {
  }

  lemma {:induction false} NothingDeleted(o: Operation, items: seq<Item>, r: Range)
    requires o.Edit? && o.deletions == [] && ChosenIds(items, [r]) == {}
    ensures forall id :: Covered(o.deletions, id) <==> id in ChosenIds(items, [r])
    ensures forall x :: x in o.deletions ==> x.count > 0
  {
    hide ChosenIds;
  }

  lemma {:induction false} InsertIsDistinct(u: set<Operation>, a: set<Operation>, frags: seq<Fragment>, index: RunIndex, undo: seq<UndoEntry>,
                                            v: Version, next: nat, actor: ActorId, r: Range, text: seq<Scalar>, p: nat,
                                            rec: InsertedRun, o: Operation, all: seq<Fragment>)
    requires IsCurrent(u, a, frags, index, undo, v, next) && next > 0 && ValidActor(actor) && OwnApplied(u, a, actor)
    requires InSequence([r], |Text(Items(frags))|) && IsPlace(Items(frags), r.start, p)
    requires RecFits(DocOf(frags), actor, next, p, text, Some(rec)) && IsEmitted(actor, next, v, text, Some(rec), o)
    requires forall id :: Covered(o.deletions, id) <==> id in ChosenIds(Items(frags), [r])
    requires forall x :: x in o.deletions ==> x.count > 0
    requires |o.deletions| <= if r.start < r.end then r.end - r.start else 0
    requires p <= |Items(frags)| && Items(all) == EditedItems(Items(frags), r, o.timestamp, p, Some(rec))
    ensures Distinct(DocOf(all))
  {
    hide *;
    PrepareFast(u, a, frags, index, undo, v, next, actor, r, text, p, Some(rec), o);
    EmittedParts(actor, next, v, text, Some(rec), o);
    PartlyIsValid(a, o, |o.inserts|, Items(all));
    DocIsNodes(all);
    ValidIsLinked(NodesOf(Items(all)));
    LinkedIsDistinct(NodesOf(Items(all)));
  }

  // ---- Every edit --------------------------------------------------------

  /** The fast path that fits the edit, if one does. */
  method TryFast(ghost u: set<Operation>, ghost a: set<Operation>, actor: ActorId, frags: seq<Fragment>, index: RunIndex, undo: seq<UndoEntry>,
                 v: Version, next: nat, r: Range, text: seq<Scalar>)
    returns (done: bool, o: Operation, frags': seq<Fragment>, index': RunIndex)
    requires IsCurrent(u, a, frags, index, undo, v, next) && next > 0 && ValidActor(actor) && OwnApplied(u, a, actor)
    requires r.start <= r.end <= |Text(Items(frags))|
    ensures done ==> IsDone(u, a, frags, undo, v, next, actor, [r], [text], o, frags', index')
  {
    hide *;
    if text == [] {
      done, o, frags', index' := DeleteVisible(u, a, actor, frags, index, undo, v, next, r);
    } else if r.start < r.end {
      done, o, frags', index' := ReplaceVisible(u, a, actor, frags, index, undo, v, next, r, text);
    } else {
      done, o, frags', index' := InsertVisible(u, a, actor, frags, index, undo, v, next, r.start, text);
    }
  }

  /** A local edit: a fast path when one fits, the general path otherwise. The
      promise is the same. */
  method EditVisible(ghost u: set<Operation>, ghost a: set<Operation>, actor: ActorId, frags: seq<Fragment>, index: RunIndex, undo: seq<UndoEntry>,
                     v: Version, next: nat, ranges: seq<Range>, news: seq<seq<Scalar>>)
    returns (o: Operation, frags': seq<Fragment>, index': RunIndex, v': Version, next': nat)
    requires IsCurrent(u, a, frags, index, undo, v, next) && next > 0 && ValidActor(actor) && OwnApplied(u, a, actor)
    requires |ranges| == |news| && InSequence(ranges, |Text(Items(frags))|)
    ensures o.Edit? && MintedFrom(u, a, v, o) && (Accepted(o) <==> WithinLimits(o))
    ensures IsCurrent(u + {o}, a + {o}, frags', index', undo, v', next') && OwnApplied(u + {o}, a + {o}, actor)
    ensures IsEdit(Items(frags), ranges, news, actor, next, o, Items(frags')) && Packed(frags, ranges, o)
    ensures Text(Items(frags')) == Edited(Text(Items(frags)), ranges, news)
  {
    hide *;
    if |ranges| == 1 {
      OnlyRange(ranges, |Text(Items(frags))|);
      var done;
      done, o, frags', index' := TryFast(u, a, actor, frags, index, undo, v, next, ranges[0], news[0]);
      if done {
        assert ranges == [ranges[0]] && news == [news[0]];
        DoneParts(u, a, frags, undo, v, next, actor, ranges, news, o, frags', index');
        v', next' := Observe(v, o.timestamp), o.timestamp.counter + 1;
        return;
      }
    }
    o, frags', index', v', next' := EditLocally(u, a, actor, frags, index, undo, v, next, ranges, news);
    PackedFlat(frags, ranges, o);
  }

  lemma {:induction false} PackedFlat(frags: seq<Fragment>, ranges: seq<Range>, o: Operation)
    requires o.Edit? && |o.deletions| == FlatRunCount(Items(frags), ranges)
    ensures Packed(frags, ranges, o)
  {
  }

  lemma {:induction false} PackedStaged(frags: seq<Fragment>, r: Range, o: Operation)
    requires o.Edit? && |o.deletions| == StagedRunCount(frags, r)
    ensures Packed(frags, [r], o)
  {
  }

  lemma {:induction false} PackedNone(frags: seq<Fragment>, r: Range, o: Operation)
    requires o.Edit? && o.deletions == [] && ChosenIds(Items(frags), [r]) == {}
    ensures Packed(frags, [r], o)
  {
    assert Heads(Singles({})) == {};
  }

  lemma {:induction false} OnlyRange(ranges: seq<Range>, n: nat)
    requires |ranges| == 1 && InSequence(ranges, n)
    ensures ranges[0].start <= ranges[0].end <= n
  {
  }

  lemma {:induction false} DoneParts(u: set<Operation>, a: set<Operation>, frags: seq<Fragment>, undo: seq<UndoEntry>, v: Version, next: nat,
                                     actor: ActorId, ranges: seq<Range>, news: seq<seq<Scalar>>, o: Operation, frags': seq<Fragment>, index': RunIndex)
    requires IsDone(u, a, frags, undo, v, next, actor, ranges, news, o, frags', index')
    ensures o.Edit? && MintedFrom(u, a, v, o) && (Accepted(o) <==> WithinLimits(o))
    ensures IsCurrent(u + {o}, a + {o}, frags', index', undo, Observe(v, o.timestamp), o.timestamp.counter + 1)
    ensures OwnApplied(u + {o}, a + {o}, actor)
    ensures IsEdit(Items(frags), ranges, news, actor, next, o, Items(frags'))
    ensures |ranges| == |news| && InSequence(ranges, |Text(Items(frags))|) && Packed(frags, ranges, o)
    ensures Text(Items(frags')) == Edited(Text(Items(frags)), ranges, news)
  {
  }

  // ---- Fast is flat ------------------------------------------------------

  /** An edit of one range determines the run it inserts. */
  lemma {:induction false} OneRange(items: seq<Item>, r: Range, text: seq<Scalar>, actor: ActorId, first: nat, o: Operation,
                                    ps: seq<nat>, runs: seq<seq<Item>>) returns (p: nat)
    requires Linked(NodesOf(items)) && o.Edit? && o.timestamp.actor == actor && MintedInTurn(o.inserts, actor, first, o.timestamp.counter)
    requires MintedSoFar(items, [r], [text], o.inserts, ps, runs)
    ensures p <= |items| && IsPlace(items, r.start, p) && ps == [p]
    ensures (LeftAt(NodesOf(items), p).Some? ==> Has(NodesOf(items), LeftAt(NodesOf(items), p).value))
    ensures if text == [] then o.inserts == [] && runs == [[]]
            else o.inserts == [InsertedRun(Identity(actor, first), FugueLaws.MintLink(NodesOf(items), LeftAt(NodesOf(items), p)), text, false)]
                 && runs == [ItemsOf(RunFragment(o.inserts[0]))]
  {
    hide *;
    MintedParts(items, [r], [text], o.inserts, ps, runs);
    p := ps[0];
    OnePlace(items, r, text, ps, runs);
    assert ps == [p] && runs == [runs[0]];
    PlaceIsInside(items, r.start, p);
    LinkedIsDistinct(NodesOf(items));
    LeftAtIsThere(NodesOf(items), p);
    if runs[0] == [] {
      NoRuns(o.inserts, p, runs);
    } else {
      KeptOne(p, runs[0]);
      KeptRunsOne(runs);
      OneMinted(items, actor, first, o, p, runs[0]);
      TextIsRunText(o.inserts[0], runs[0], text);
    }
  }

  lemma {:induction false} OnePlace(items: seq<Item>, r: Range, text: seq<Scalar>, ps: seq<nat>, runs: seq<seq<Item>>)
    requires PlacesOf(items, [r], ps) && RunTexts(runs, [text])
    ensures |ps| == 1 && |runs| == 1 && IsPlace(items, r.start, ps[0]) && Text(runs[0]) == text
    ensures runs[0] == [] ==> text == []
  {
  }

  lemma {:induction false} NoRuns(recs: seq<InsertedRun>, p: nat, runs: seq<seq<Item>>)
    requires runs == [[]] && RunItems(RunFragments(recs)) == KeptRuns(runs)
    ensures recs == []
  {
    assert KeptRuns(runs) == KeptRuns(runs[..0]) + [];
    assert |RunItems(RunFragments(recs))| == |recs|;
  }

  lemma {:induction false} KeptRunsOne(runs: seq<seq<Item>>)
    requires |runs| == 1 && runs[0] != []
    ensures KeptRuns(runs) == runs
  {
    assert KeptRuns(runs[..0]) == [];
  }

  lemma {:induction false} OneMinted(items: seq<Item>, actor: ActorId, first: nat, o: Operation, p: nat, run: seq<Item>)
    requires Linked(NodesOf(items)) && o.Edit? && MintedInTurn(o.inserts, actor, first, o.timestamp.counter) && p <= |NodesOf(items)|
    requires Minted(NodesOf(items), RunFragments(o.inserts), [p]) && RunItems(RunFragments(o.inserts)) == [run]
    requires LeftAt(NodesOf(items), p).Some? ==> Has(NodesOf(items), LeftAt(NodesOf(items), p).value)
    ensures |o.inserts| == 1 && run == ItemsOf(RunFragment(o.inserts[0]))
    ensures !o.inserts[0].marker && o.inserts[0].text != []
    ensures o.inserts[0].origin == Identity(actor, first)
    ensures o.inserts[0].link == FugueLaws.MintLink(NodesOf(items), LeftAt(NodesOf(items), p))
  {
    var recs := o.inserts;
    assert |RunItems(RunFragments(recs))| == |recs|;
    assert recs[..0] == [];
    assert TotalLength(recs) == RunLength(recs[0]);
    assert MintedAt(NodesOf(items), RunFragments(recs)[0], [p][0]);
    RunItemsAt(RunFragments(recs), 0);
  }

  lemma {:induction false} TextIsRunText(rec: InsertedRun, run: seq<Item>, text: seq<Scalar>)
    requires !rec.marker && rec.text != [] && run == ItemsOf(RunFragment(rec)) && Text(run) == text
    ensures rec.text == text && text != []
  {
    NewRunText(rec);
  }

  /** Two ways to make the same edit of one range end in the same document and in
      operations that insert the same run and delete the same identities. So the
      fast paths refine the general one. */
  lemma {:induction false} FastIsFlat(items: seq<Item>, r: Range, text: seq<Scalar>, actor: ActorId, first: nat,
                                      o1: Operation, after1: seq<Item>, o2: Operation, after2: seq<Item>)
    requires IsEdit(items, [r], [text], actor, first, o1, after1) && IsEdit(items, [r], [text], actor, first, o2, after2)
    ensures after1 == after2
    ensures o1.Edit? && o2.Edit? && o1.inserts == o2.inserts && o1.timestamp == o2.timestamp
    ensures forall id :: Deletes(o1, id) <==> Deletes(o2, id)
  {
    var ps1, runs1 := EditParts(items, [r], [text], actor, first, o1, after1);
    var ps2, runs2 := EditParts(items, [r], [text], actor, first, o2, after2);
    hide *;
    var p1 := OneRange(items, r, text, actor, first, o1, ps1, runs1);
    var p2 := OneRange(items, r, text, actor, first, o2, ps2, runs2);
    PlaceIsUnique(items, r.start, p1, p2);
    SameTop(o1.inserts, actor, first, o1.timestamp.counter, o2.timestamp.counter);
  }

  lemma {:induction false} EditParts(items: seq<Item>, ranges: seq<Range>, news: seq<seq<Scalar>>, actor: ActorId, first: nat, o: Operation, after: seq<Item>)
    returns (ps: seq<nat>, runs: seq<seq<Item>>)
    requires IsEdit(items, ranges, news, actor, first, o, after)
    ensures Linked(NodesOf(items)) && o.Edit? && o.timestamp.actor == actor && MintedInTurn(o.inserts, actor, first, o.timestamp.counter)
    ensures forall id :: Deletes(o, id) <==> id in ChosenIds(items, ranges)
    ensures MintedSoFar(items, ranges, news, o.inserts, ps, runs)
    ensures |ps| == |runs| && Places(KeptPlaces(ps, runs), |items|) && |KeptPlaces(ps, runs)| == |o.inserts|
    ensures after == Woven(HideRanges(items, ranges, o.timestamp), KeptPlaces(ps, runs), RunItems(RunFragments(o.inserts)))
  {
    hide Linked, MintedInTurn, Deletes, ChosenIds, MintedSoFar, Places, KeptPlaces, Woven, RunItems, RunFragments, HideRanges;
    ps, runs :| MintedSoFar(items, ranges, news, o.inserts, ps, runs) && IsWoven(items, ranges, o, ps, runs, after);
  }

  lemma {:induction false} SameTop(recs: seq<InsertedRun>, actor: ActorId, first: nat, m: nat, n: nat)
    requires MintedInTurn(recs, actor, first, m) && MintedInTurn(recs, actor, first, n)
    ensures m == n
  {
  }
}
