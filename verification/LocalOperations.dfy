/** The operation a local edit emits, and the edit as a whole.

    `EditLocally` is the engine's general path. Its document is the one the
    emitted operation produces at any replica, the operation keeps the history
    honest, and the visible text is the edited text. */
module LocalOperations {
  import opened Ids
  import opened VersionVectors
  import opened FugueOrder
  import opened FugueLaws
  import opened Fragments
  import opened Histories
  import opened SequenceOrder
  import opened Indexes
  import opened DeletionRuns
  import opened Representation
  import opened Visibility
  import opened RemoteEdits
  import opened Delivery
  import opened VisibleText
  import opened LocalPlacement
  import opened LocalEdits

  // ---- Runs to insert ----------------------------------------------------

  function RunFragments(recs: seq<InsertedRun>): (r: seq<Fragment>)
    ensures |r| == |recs|
    ensures forall k :: 0 <= k < |recs| ==> r[k] == RunFragment(recs[k])
  {
    if recs == [] then [] else RunFragments(recs[..|recs| - 1]) + [RunFragment(recs[|recs| - 1])]
  }

  /** The non-empty runs, and their places. */
  function KeptRuns(runs: seq<seq<Item>>): seq<seq<Item>> {
    if runs == [] then []
    else
      var last := runs[|runs| - 1];
      KeptRuns(runs[..|runs| - 1]) + if last == [] then [] else [last]
  }

  function KeptPlaces(ps: seq<nat>, runs: seq<seq<Item>>): (r: seq<nat>)
    requires |ps| == |runs|
    ensures |r| == |KeptRuns(runs)|
  {
    if ps == [] then []
    else
      var last := |ps| - 1;
      KeptPlaces(ps[..last], runs[..last]) + if runs[last] == [] then [] else [ps[last]]
  }

  lemma {:induction false} KeptInOrder(ps: seq<nat>, runs: seq<seq<Item>>, n: nat)
    requires |ps| == |runs| && Places(ps, n)
    ensures Places(KeptPlaces(ps, runs), n)
    ensures forall q :: q in KeptPlaces(ps, runs) ==> ps != [] && q <= ps[|ps| - 1]
    decreases |ps|
  {
    if ps != [] {
      var last := |ps| - 1;
      KeptInOrder(ps[..last], runs[..last], n);
      assert last > 0 ==> ps[last - 1] <= ps[last] <= n;
      var init, p := KeptPlaces(ps[..last], runs[..last]), ps[last];
      assert forall q :: q in init ==> q <= p;
      assert KeptPlaces(ps, runs) == init || KeptPlaces(ps, runs) == init + [p];
      hide KeptPlaces;
      PlacesAppend(init, p, n);
    }
  }

  lemma {:induction false} PlacesAppend(ps: seq<nat>, p: nat, n: nat)
    requires Places(ps, n) && p <= n && forall q :: q in ps ==> q <= p
    ensures Places(ps + [p], n)
  {
    forall i | 0 <= i < |ps|
      ensures ps[i] <= p
    {
      assert ps[i] in ps;
    }
  }

  /** Weaving in nothing changes nothing. */
  lemma {:induction false} WovenKept(base: seq<Item>, ps: seq<nat>, runs: seq<seq<Item>>)
    requires |ps| == |runs| && Places(ps, |base|)
    ensures Places(KeptPlaces(ps, runs), |base|)
    ensures Woven(base, KeptPlaces(ps, runs), KeptRuns(runs)) == Woven(base, ps, runs)
    decreases |ps|
  {
    KeptInOrder(ps, runs, |base|);
    if ps != [] {
      var last := |ps| - 1;
      var p := ps[last];
      WovenUnfold(base, ps, runs);
      WovenKept(base[..p], ps[..last], runs[..last]);
      KeptUnfold(ps, runs, |base|);
      var kp, kr := KeptPlaces(ps[..last], runs[..last]), KeptRuns(runs[..last]);
      hide KeptPlaces, KeptRuns, Places, Woven;
      if runs[last] == [] {
        WovenExtends(base, kp, kr, p);
      } else {
        WovenUnfold(base, kp + [p], kr + [runs[last]]);
      }
    }
  }

  lemma {:induction false} KeptUnfold(ps: seq<nat>, runs: seq<seq<Item>>, n: nat)
    requires |ps| == |runs| && ps != [] && Places(ps, n)
    ensures var last := |ps| - 1;
            var kp, kr := KeptPlaces(ps[..last], runs[..last]), KeptRuns(runs[..last]);
            && Places(kp, n) && (kp != [] ==> kp[|kp| - 1] <= ps[last])
            && (if runs[last] == [] then KeptPlaces(ps, runs) == kp && KeptRuns(runs) == kr
                else KeptPlaces(ps, runs) == kp + [ps[last]] && KeptRuns(runs) == kr + [runs[last]])
            && (kp + [ps[last]])[..|kp|] == kp && (kr + [runs[last]])[..|kr|] == kr
  {
    var last := |ps| - 1;
    KeptInOrder(ps[..last], runs[..last], n);
    assert last > 0 ==> ps[last - 1] <= ps[last];
    var kp := KeptPlaces(ps[..last], runs[..last]);
    if kp != [] { assert kp[|kp| - 1] in kp; }
  }

  /** The runs take consecutive stretches of the counters from `first` up to `next`. */
  ghost predicate MintedInTurn(recs: seq<InsertedRun>, actor: ActorId, first: nat, next: nat) {
    && next == first + TotalLength(recs)
    && (forall k :: 0 <= k < |recs| ==>
          && recs[k].origin.actor == actor && !recs[k].marker && RunLength(recs[k]) > 0
          && first <= recs[k].origin.counter && recs[k].origin.counter + RunLength(recs[k]) <= next)
    && (forall j, k :: 0 <= j < k < |recs| ==> recs[j].origin.counter + RunLength(recs[j]) <= recs[k].origin.counter)
  }

  lemma {:induction false} InTurnStep(recs: seq<InsertedRun>, actor: ActorId, first: nat, next: nat, r: InsertedRun)
    requires MintedInTurn(recs, actor, first, next)
    requires r.origin == Identity(actor, next) && !r.marker && RunLength(r) > 0
    ensures MintedInTurn(recs + [r], actor, first, next + RunLength(r))
  {
    assert (recs + [r])[..|recs|] == recs;
  }

  /** What minting keeps: the runs so far are minted at the places of their
      ranges, and carry the new texts. */
  ghost predicate MintedSoFar(items: seq<Item>, ranges: seq<Range>, news: seq<seq<Scalar>>, recs: seq<InsertedRun>,
                              ps: seq<nat>, runs: seq<seq<Item>>)
    requires Linked(NodesOf(items))
  {
    && PlacesOf(items, ranges, ps) && RunTexts(runs, news) && |runs| == |ps|
    && Minted(NodesOf(items), RunFragments(recs), KeptPlaces(ps, runs))
    && RunItems(RunFragments(recs)) == KeptRuns(runs)
  }

  ghost predicate Below(doc: Doc, first: nat) {
    forall i :: 0 <= i < |doc| ==> doc[i].id.counter < first
  }

  /** Mint the runs of all ranges against the old document. */
  method MintInserts(frags: seq<Fragment>, ranges: seq<Range>, news: seq<seq<Scalar>>, actor: ActorId, first: nat)
    returns (recs: seq<InsertedRun>, next: nat, ghost ps: seq<nat>, ghost runs: seq<seq<Item>>)
    requires NonEmptyRuns(frags) && Valid(DocOf(frags))
    requires |ranges| == |news| && InSequence(ranges, |Text(Items(frags))|)
    requires Below(DocOf(frags), first)
    ensures MintedSoFar(Items(frags), ranges, news, recs, ps, runs) && MintedInTurn(recs, actor, first, next)
  {
    recs, next, ps, runs := [], first, [], [];
    StartMinting(frags, ranges, news);
    ValidIsLinked(DocOf(frags));
    hide *;
    for k := 0 to |ranges|
      invariant MintedSoFar(Items(frags), ranges[..k], news[..k], recs, ps, runs) && MintedInTurn(recs, actor, first, next)
    {
      recs, next, ps, runs := MintNext(frags, ranges, news, actor, first, k, recs, next, ps, runs);
    }
    assert ranges[..|ranges|] == ranges && news[..|news|] == news;
  }

  method MintNext(frags: seq<Fragment>, ranges: seq<Range>, news: seq<seq<Scalar>>, actor: ActorId, ghost first: nat, k: nat,
                  recs: seq<InsertedRun>, next: nat, ghost ps: seq<nat>, ghost runs: seq<seq<Item>>)
    returns (recs': seq<InsertedRun>, next': nat, ghost ps': seq<nat>, ghost runs': seq<seq<Item>>)
    requires NonEmptyRuns(frags) && Valid(DocOf(frags)) && Below(DocOf(frags), first)
    requires k < |ranges| == |news| && InSequence(ranges, |Text(Items(frags))|)
    requires MintedSoFar(Items(frags), ranges[..k], news[..k], recs, ps, runs) && MintedInTurn(recs, actor, first, next)
    ensures MintedSoFar(Items(frags), ranges[..k + 1], news[..k + 1], recs', ps', runs') && MintedInTurn(recs', actor, first, next')
  {
    hide *;
    ValidIsLinked(DocOf(frags));
    StartsInText(ranges, |Text(Items(frags))|, k);
    recs', next' := recs, next;
    if news[k] == [] {
      ghost var p := FindPlace(Items(frags), ranges[k].start);
      SkipEmpty(frags, ranges, news, k, recs, ps, runs, p);
      ps', runs' := ps + [p], runs + [[]];
    } else {
      var rec;
      rec, ps', runs' := MintFull(frags, ranges, news, actor, first, k, recs, next, ps, runs);
      recs', next' := recs + [rec], next + |news[k]|;
    }
  }

  method MintFull(frags: seq<Fragment>, ranges: seq<Range>, news: seq<seq<Scalar>>, actor: ActorId, ghost first: nat, k: nat,
                  ghost recs: seq<InsertedRun>, next: nat, ghost ps: seq<nat>, ghost runs: seq<seq<Item>>)
    returns (rec: InsertedRun, ghost ps': seq<nat>, ghost runs': seq<seq<Item>>)
    requires NonEmptyRuns(frags) && Valid(DocOf(frags)) && Linked(DocOf(frags)) && Below(DocOf(frags), first)
    requires k < |ranges| == |news| && news[k] != [] && InSequence(ranges, |Text(Items(frags))|)
    requires ranges[k].start <= |Text(Items(frags))|
    requires MintedSoFar(Items(frags), ranges[..k], news[..k], recs, ps, runs) && MintedInTurn(recs, actor, first, next)
    ensures MintedSoFar(Items(frags), ranges[..k + 1], news[..k + 1], recs + [rec], ps', runs')
    ensures MintedInTurn(recs + [rec], actor, first, next + |news[k]|)
  {
    hide *;
    ghost var p;
    rec, p := MintRun(frags, ranges[k].start, news[k], Identity(actor, next));
    MintOne(frags, ranges, news, actor, first, k, recs, next, ps, runs, p, rec);
    TextLength(rec);
    InTurnStep(recs, actor, first, next, rec);
    ps', runs' := ps + [p], runs + [ItemsOf(RunFragment(rec))];
  }

  lemma {:induction false} TextLength(rec: InsertedRun)
    requires !rec.marker
    ensures RunLength(rec) == |rec.text|
  {
  }

  lemma {:induction false} StartsInText(ranges: seq<Range>, n: nat, k: nat)
    requires InSequence(ranges, n) && k < |ranges|
    ensures ranges[k].start <= n
  {
  }

  /** A run for `text`, right after the visible element that ends at `start`. */
  method MintRun(frags: seq<Fragment>, start: nat, text: seq<Scalar>, origin: Identity) returns (rec: InsertedRun, ghost p: nat)
    requires NonEmptyRuns(frags) && Linked(DocOf(frags)) && start <= |Text(Items(frags))|
    ensures IsPlace(Items(frags), start, p) && p <= |DocOf(frags)|
    ensures LeftAt(DocOf(frags), p).Some? ==> Has(DocOf(frags), LeftAt(DocOf(frags), p).value)
    ensures rec == InsertedRun(origin, FugueLaws.MintLink(DocOf(frags), LeftAt(DocOf(frags), p)), text, false)
  {
    var left;
    left, p := VisibleElementBefore(frags, start);
    LeftAtIsThere(DocOf(frags), p);
    var link := SequenceOrder.MintLink(frags, left);
    rec := InsertedRun(origin, link, text, false);
  }

  lemma {:induction false} StartMinting(frags: seq<Fragment>, ranges: seq<Range>, news: seq<seq<Scalar>>)
    requires Linked(DocOf(frags)) && |ranges| == |news|
    ensures MintedSoFar(Items(frags), ranges[..0], news[..0], [], [], [])
    ensures forall actor, first :: MintedInTurn([], actor, first, first)
  {
  }

  lemma {:induction false} FindPlace(items: seq<Item>, s: nat) returns (p: nat)
    requires s <= |Text(items)|
    ensures IsPlace(items, s, p)
  {
    if s == 0 {
      assert items[..0] == [];
      p := 0;
    } else {
      p := |items|;
      OffsetEnds(items);
      while Offset(items, p) > s || !IsText(items[p - 1])
        invariant 0 < p <= |items| && s <= Offset(items, p)
        decreases p
      {
        OffsetStep(items, p - 1);
        p := p - 1;
        if p == 0 { OffsetEnds(items); }
      }
    }
  }

  lemma {:induction false} PlacesStep(items: seq<Item>, ranges: seq<Range>, k: nat, ps: seq<nat>, p: nat)
    requires k < |ranges| && PlacesOf(items, ranges[..k], ps) && IsPlace(items, ranges[k].start, p)
    ensures PlacesOf(items, ranges[..k + 1], ps + [p])
  {
    forall i | 0 <= i < |ps| + 1
      ensures IsPlace(items, ranges[..k + 1][i].start, (ps + [p])[i])
    {
      if i < |ps| { assert IsPlace(items, ranges[..k][i].start, ps[i]); }
    }
  }

  lemma {:induction false} TextsStep(news: seq<seq<Scalar>>, k: nat, runs: seq<seq<Item>>, run: seq<Item>)
    requires k < |news| && RunTexts(runs, news[..k]) && Text(run) == news[k]
    ensures RunTexts(runs + [run], news[..k + 1])
  {
    forall i | 0 <= i < |runs| + 1
      ensures Text((runs + [run])[i]) == news[..k + 1][i]
    {
      if i < |runs| { assert Text(runs[i]) == news[..k][i]; }
    }
  }

  lemma {:induction false} SkipEmpty(frags: seq<Fragment>, ranges: seq<Range>, news: seq<seq<Scalar>>, k: nat,
                                     recs: seq<InsertedRun>, ps: seq<nat>, runs: seq<seq<Item>>, p: nat)
    requires Linked(DocOf(frags)) && k < |ranges| == |news| && news[k] == []
    requires MintedSoFar(Items(frags), ranges[..k], news[..k], recs, ps, runs) && IsPlace(Items(frags), ranges[k].start, p)
    ensures MintedSoFar(Items(frags), ranges[..k + 1], news[..k + 1], recs, ps + [p], runs + [[]])
  {
    PlacesStep(Items(frags), ranges, k, ps, p);
    TextsStep(news, k, runs, []);
    assert (ps + [p])[..|ps|] == ps && (runs + [[]])[..|runs|] == runs;
    hide PlacesOf, RunTexts, Minted;
  }

  lemma {:induction false} MintOne(frags: seq<Fragment>, ranges: seq<Range>, news: seq<seq<Scalar>>, actor: ActorId, first: nat, k: nat,
                                   recs: seq<InsertedRun>, next: nat, ps: seq<nat>, runs: seq<seq<Item>>, p: nat, rec: InsertedRun)
    requires Valid(DocOf(frags)) && k < |ranges| == |news| && InSequence(ranges, |Text(Items(frags))|)
    requires Below(DocOf(frags), first)
    requires MintedSoFar(Items(frags), ranges[..k], news[..k], recs, ps, runs) && MintedInTurn(recs, actor, first, next)
    requires IsPlace(Items(frags), ranges[k].start, p)
    requires LeftAt(DocOf(frags), p).Some? ==> Has(DocOf(frags), LeftAt(DocOf(frags), p).value)
    requires news[k] != [] && rec == InsertedRun(Identity(actor, next), FugueLaws.MintLink(DocOf(frags), LeftAt(DocOf(frags), p)), news[k], false)
    ensures MintedSoFar(Items(frags), ranges[..k + 1], news[..k + 1], recs + [rec], ps + [p], runs + [ItemsOf(RunFragment(rec))])
  {
    hide *;
    var items, doc := Items(frags), DocOf(frags);
    var f, run := RunFragment(rec), ItemsOf(RunFragment(rec));
    DocIsNodes(frags);
    ValidIsLinked(doc);
    MintedParts(items, ranges[..k], news[..k], recs, ps, runs);
    PlacesStep(items, ranges, k, ps, p);
    FirstInSequenceUpTo(ranges, |Text(items)|, k + 1);
    PlacesInOrder(items, ranges[..k + 1], ps + [p]);
    NewRunText(rec);
    TextsStep(news, k, runs, run);
    KeptUnfold(ps + [p], runs + [run], |items|);
    assert (ps + [p])[..|ps|] == ps && (runs + [run])[..|runs|] == runs && (recs + [rec])[..|recs|] == recs;
    KeptInOrder(ps + [p], runs + [run], |items|);
    FragmentsStep(recs, rec);
    PlaceIsInside(items, ranges[k].start, p);
    NewIsMinted(doc, recs, actor, first, next, KeptPlaces(ps, runs), f, p);
    PartsMinted(items, ranges[..k + 1], news[..k + 1], recs + [rec], ps + [p], runs + [run]);
  }

  lemma {:induction false} MintedParts(items: seq<Item>, ranges: seq<Range>, news: seq<seq<Scalar>>, recs: seq<InsertedRun>, ps: seq<nat>, runs: seq<seq<Item>>)
    requires Linked(NodesOf(items)) && MintedSoFar(items, ranges, news, recs, ps, runs)
    ensures PlacesOf(items, ranges, ps) && RunTexts(runs, news) && |runs| == |ps|
    ensures Minted(NodesOf(items), RunFragments(recs), KeptPlaces(ps, runs)) && RunItems(RunFragments(recs)) == KeptRuns(runs)
    ensures |ps| == |ranges| && |runs| == |news|
  {
  }

  lemma {:induction false} PartsMinted(items: seq<Item>, ranges: seq<Range>, news: seq<seq<Scalar>>, recs: seq<InsertedRun>, ps: seq<nat>, runs: seq<seq<Item>>)
    requires Linked(NodesOf(items)) && PlacesOf(items, ranges, ps) && RunTexts(runs, news) && |runs| == |ps|
    requires Minted(NodesOf(items), RunFragments(recs), KeptPlaces(ps, runs)) && RunItems(RunFragments(recs)) == KeptRuns(runs)
    ensures MintedSoFar(items, ranges, news, recs, ps, runs)
  {
  }

  lemma {:induction false} NewRunText(rec: InsertedRun)
    requires !rec.marker && rec.text != []
    ensures Text(ItemsOf(RunFragment(rec))) == rec.text && ItemsOf(RunFragment(rec)) != [] && Length(RunFragment(rec)) > 0
    ensures RunFragment(rec).origin == rec.origin && RunFragment(rec).link == rec.link
  {
    var f := RunFragment(rec);
    TextOfRun(f, Length(f));
    assert ItemsOf(f)[..Length(f)] == ItemsOf(f);
  }

  lemma {:induction false} PlaceIsInside(items: seq<Item>, s: nat, p: nat)
    requires IsPlace(items, s, p)
    ensures p <= |items| == |NodesOf(items)|
  {
  }

  lemma {:induction false} FragmentsStep(recs: seq<InsertedRun>, rec: InsertedRun)
    ensures RunFragments(recs + [rec]) == RunFragments(recs) + [RunFragment(rec)]
    ensures RunItems(RunFragments(recs + [rec])) == RunItems(RunFragments(recs)) + [ItemsOf(RunFragment(rec))]
  {
    assert (recs + [rec])[..|recs|] == recs;
  }

  lemma {:induction false} FirstInSequenceUpTo(ranges: seq<Range>, n: nat, k: nat)
    requires InSequence(ranges, n) && k <= |ranges|
    ensures InSequence(ranges[..k], n)
  {
  }

  lemma {:induction false} NewIsMinted(doc: Doc, recs: seq<InsertedRun>, actor: ActorId, first: nat, next: nat, kp: seq<nat>, f: Fragment, p: nat)
    requires Linked(doc) && Minted(doc, RunFragments(recs), kp) && MintedInTurn(recs, actor, first, next)
    requires Below(doc, first)
    requires p <= |doc| && Places(kp + [p], |doc|)
    requires LeftAt(doc, p).Some? ==> Has(doc, LeftAt(doc, p).value)
    requires f.origin == Identity(actor, next) && Length(f) > 0 && f.link == FugueLaws.MintLink(doc, LeftAt(doc, p))
    ensures Minted(doc, RunFragments(recs) + [f], kp + [p])
  {
    var fs := RunFragments(recs) + [f];
    assert MintedAt(doc, f, p);
    forall j | 0 <= j < |fs|
      ensures MintedAt(doc, fs[j], (kp + [p])[j])
    {
      if j < |recs| { assert MintedAt(doc, RunFragments(recs)[j], kp[j]); }
    }
    forall i, j | 0 <= i < j < |fs|
      ensures fs[i].origin.actor == fs[j].origin.actor && fs[i].origin.counter + Length(fs[i]) <= fs[j].origin.counter
    {
      if j < |recs| {
        assert RunFragments(recs)[i].origin.counter + Length(RunFragments(recs)[i]) <= RunFragments(recs)[j].origin.counter;
      } else {
        assert RunLength(recs[i]) == Length(fs[i]);
      }
    }
  }

  // ---- The emitted operation ---------------------------------------------

  /** This replica has applied every operation of its own actor. */
  ghost predicate OwnApplied(u: set<Operation>, a: set<Operation>, actor: ActorId) {
    forall p :: p in u && p.timestamp.actor == actor ==> p in a
  }

  /** What the edit knows when it has minted its runs and tombstoned its ranges. */
  ghost predicate Prepared(u: set<Operation>, a: set<Operation>, items: seq<Item>, v: Version, actor: ActorId, first: nat,
                           ranges: seq<Range>, recs: seq<InsertedRun>, fps: seq<nat>, o: Operation) {
    && Honest(u) && Closed(u, a) && IsFrontier(a, v) && OwnApplied(u, a, actor) && ValidActor(actor)
    && (forall b :: b in v ==> v[b] < first) && first > 0
    && Valid(NodesOf(items)) && Contents(items) == Supplied(a)
    && Minted(NodesOf(items), RunFragments(recs), fps)
    && o.Edit? && !o.markerEdit && o.inserts == recs && o.version == v
    && MintedInTurn(recs, actor, first, o.timestamp.counter) && o.timestamp.actor == actor
    && (forall id :: Deletes(o, id) <==> id in ChosenIds(items, ranges))
    && (forall k :: 0 <= k < |o.deletions| ==> o.deletions[k].count > 0)
  }

  lemma {:induction false} ItemIsKnown(u: set<Operation>, a: set<Operation>, items: seq<Item>, v: Version, o: Operation, id: Identity)
    requires Closed(u, a) && IsFrontier(a, v) && o.version == v && Contents(items) == Supplied(a) && Has(NodesOf(items), id)
    ensures Knows(u, o, id)
  {
    HasContent(items, id);
    var c :| c in Contents(items) && c.node.id == id;
    var p :| p in a && c in Supply(p);
    SupplyIsMinted(p, c);
    assert p in u && Observed(o.version, p.timestamp) && InsertsId(p, id);
  }

  lemma {:induction false} EmittedLinks(u: set<Operation>, a: set<Operation>, items: seq<Item>, v: Version, o: Operation, fps: seq<nat>)
    requires Closed(u, a) && IsFrontier(a, v) && o.Edit? && o.version == v
    requires Valid(NodesOf(items)) && Contents(items) == Supplied(a) && Minted(NodesOf(items), RunFragments(o.inserts), fps)
    ensures LinksKnown(u, o)
    ensures forall k :: 0 <= k < |o.inserts| && o.inserts[k].link.side.Left? ==>
              o.inserts[k].link.parent.Some? && o.inserts[k].link.rightOrigin == o.inserts[k].link.parent
  {
    forall k | 0 <= k < |o.inserts|
      ensures o.inserts[k].link.parent.Some? ==> Knows(u, o, o.inserts[k].link.parent.value)
      ensures o.inserts[k].link.rightOrigin.Some? ==> Knows(u, o, o.inserts[k].link.rightOrigin.value)
      ensures o.inserts[k].link.side.Left? ==>
                o.inserts[k].link.parent.Some? && o.inserts[k].link.rightOrigin == o.inserts[k].link.parent
    {
      var f := RunFragments(o.inserts)[k];
      MintedHasSlot(NodesOf(items), f, fps[k]);
      assert LinkFits(NodesOf(items), FirstNode(f));
      hide Minted, MintedAt, Valid;
      if f.link.parent.Some? { ItemIsKnown(u, a, items, v, o, f.link.parent.value); }
      if f.link.rightOrigin.Some? { ItemIsKnown(u, a, items, v, o, f.link.rightOrigin.value); }
    }
  }

  /** Deletions name text items the replica holds. */
  lemma {:induction false} EmittedDeletions(u: set<Operation>, a: set<Operation>, items: seq<Item>, v: Version, ranges: seq<Range>, o: Operation)
    requires Honest(u) && Closed(u, a) && IsFrontier(a, v) && o.Edit? && !o.markerEdit && o.version == v
    requires Contents(items) == Supplied(a)
    requires forall id :: Deletes(o, id) ==> id in ChosenIds(items, ranges)
    ensures DeletionsKnown(u, o)
  {
    forall id | Deletes(o, id)
      ensures Knows(u, o, id)
      ensures forall p :: p in u && InsertsId(p, id) ==> !InsertsMarker(p, id)
    {
      var i :| 0 <= i < |items| && Chosen(items, ranges, i) && items[i].node.id == id;
      assert NodesOf(items)[i].id == id;
      ItemIsKnown(u, a, items, v, o, id);
      forall p | p in u && InsertsId(p, id)
        ensures !InsertsMarker(p, id)
      {
        TextIsNoMarker(u, a, items, i, p);
      }
    }
  }

  lemma {:induction false} TextIsNoMarker(u: set<Operation>, a: set<Operation>, items: seq<Item>, i: nat, p: Operation)
    requires Honest(u) && a <= u && Contents(items) == Supplied(a) && i < |items| && items[i].content.Some?
    requires p in u && InsertsId(p, items[i].node.id)
    ensures !InsertsMarker(p, items[i].node.id)
  {
    var c := Content(items[i].node, items[i].content);
    assert c in Contents(items);
    var q :| q in a && c in Supply(q);
    SupplyIsMinted(q, c);
    ItemsAreUnique(u, p, q, c.node.id);
    assert WellMinted(p, FirstCounter(p));
    MarkerRun(p, c);
  }

  /** The emitted operation is one an honest replica may mint. */
  lemma {:induction false} EmittedIsMinted(u: set<Operation>, a: set<Operation>, items: seq<Item>, v: Version, actor: ActorId, first: nat,
                                           ranges: seq<Range>, recs: seq<InsertedRun>, fps: seq<nat>, o: Operation)
    requires Prepared(u, a, items, v, actor, first, ranges, recs, fps, o)
    ensures FirstCounter(o) == first && MintedFrom(u, a, v, o)
    ensures Accepted(o) <==> WithinLimits(o)
  {
    EmittedLinks(u, a, items, v, o, fps);
    EmittedDeletions(u, a, items, v, ranges, o);
    EmittedShape(v, actor, first, o);
    EmittedIsNew(u, a, v, actor, first, o);
    MintKeepsHonest(u, a, v, o);
    HonestIsAccepted(u + {o}, o);
  }

  lemma {:induction false} EmittedShape(v: Version, actor: ActorId, first: nat, o: Operation)
    requires o.Edit? && !o.markerEdit && o.version == v && o.timestamp.actor == actor && ValidActor(actor)
    requires MintedInTurn(o.inserts, actor, first, o.timestamp.counter) && first > 0
    requires forall b :: b in v ==> v[b] < first
    requires forall k :: 0 <= k < |o.deletions| ==> o.deletions[k].count > 0
    requires forall k :: 0 <= k < |o.inserts| && o.inserts[k].link.side.Left? ==>
               o.inserts[k].link.parent.Some? && o.inserts[k].link.rightOrigin == o.inserts[k].link.parent
    ensures FirstCounter(o) == first && WellMinted(o, first)
  {
  }

  lemma {:induction false} EmittedIsNew(u: set<Operation>, a: set<Operation>, v: Version, actor: ActorId, first: nat, o: Operation)
    requires IsFrontier(a, v) && OwnApplied(u, a, actor) && o.timestamp.actor == actor && 0 < first <= o.timestamp.counter
    requires forall b :: b in v ==> v[b] < first
    ensures o !in u
  {
  }

  /** The replica that emits the operation is ready for it. */
  lemma {:induction false} EmittedIsNext(u: set<Operation>, a: set<Operation>, v: Version, o: Operation)
    requires Honest(u) && MintedFrom(u, a, v, o)
    ensures Next(u + {o}, a, o)
  {
    MintKeepsHonest(u, a, v, o);
    assert WellMinted(o, FirstCounter(o));
    forall p | p in u + {o} && Observed(o.version, p.timestamp)
      ensures p in a
    {
      if p != o { VersionIsExact(u, a, v, p); }
    }
  }

  // ---- The document after the edit ---------------------------------------

  /** Tombstoning the ranges is what the operation's deletions do. */
  lemma {:induction false} HiddenIsPartly(a: set<Operation>, items: seq<Item>, ranges: seq<Range>, o: Operation)
    requires o.Edit? && Valid(NodesOf(items)) && Contents(items) == Supplied(a) && DeletionsTold(a, items)
    requires forall id :: Deletes(o, id) <==> id in ChosenIds(items, ranges)
    ensures Partly(a, o, 0, HideRanges(items, ranges, o.timestamp))
  {
    var hidden := HideRanges(items, ranges, o.timestamp);
    assert NodesOf(hidden) == NodesOf(items);
    assert SupplyOf(o, 0) == {};
    HiddenContents(items, ranges, o.timestamp);
    forall i, d | 0 <= i < |hidden|
      ensures d in hidden[i].dels <==> DeletedBy(a + {o}, hidden[i].node.id, d)
    {
      DeletedByMore(a, o, items[i].node.id, d);
      ChosenIsDeleted(items, ranges, i);
      assert d in items[i].dels <==> DeletedBy(a, items[i].node.id, d);
    }
  }

  lemma {:induction false} HiddenContents(items: seq<Item>, ranges: seq<Range>, d: Identity)
    ensures Contents(HideRanges(items, ranges, d)) == Contents(items)
  {
    var hidden := HideRanges(items, ranges, d);
    assert forall i :: 0 <= i < |items| ==> hidden[i].node == items[i].node && hidden[i].content == items[i].content;
  }

  lemma {:induction false} ChosenIsDeleted(items: seq<Item>, ranges: seq<Range>, i: nat)
    requires Distinct(NodesOf(items)) && i < |items|
    ensures Chosen(items, ranges, i) <==> items[i].node.id in ChosenIds(items, ranges)
  {
    if items[i].node.id in ChosenIds(items, ranges) {
      var j :| 0 <= j < |items| && Chosen(items, ranges, j) && items[j].node.id == items[i].node.id;
      assert NodesOf(items)[i].id == NodesOf(items)[j].id;
    }
  }

  /** Place the minted runs: each goes to its own place. */
  method PlaceInserts(ghost u: set<Operation>, ghost a: set<Operation>, ghost base: seq<Item>, ghost ps: seq<nat>,
                      frags: seq<Fragment>, o: Operation) returns (ok: bool, r: seq<Fragment>)
    requires Next(u, a, o) && o.Edit? && NonEmptyRuns(frags) && Items(frags) == base && Partly(a, o, 0, base)
    requires Valid(NodesOf(base)) && Minted(NodesOf(base), RunFragments(o.inserts), ps)
    ensures ok && NonEmptyRuns(r) && Partly(a, o, |o.inserts|, Items(r))
    ensures Places(ps, |base|) && Items(r) == Woven(base, ps, RunItems(RunFragments(o.inserts)))
    ensures DelLists(r) <= DelLists(frags) + {[]}
  {
    ok, r := true, frags;
    ghost var fs := RunFragments(o.inserts);
    StartPlaced(base, fs, ps);
    NothingWoven(base, ps, RunItems(fs));
    hide *;
    for k := 0 to |o.inserts|
      invariant ok && NonEmptyRuns(r) && Partly(a, o, k, Items(r))
      invariant PlacedSoFar(base, fs, ps, k, Items(r))
      invariant DelLists(r) <= DelLists(frags) + {[]}
    {
      ok, r := PlaceNext(u, a, base, ps, r, o, k);
      if !ok { return; }
    }
    AllPlaced(base, fs, ps, Items(r));
  }

  /** The first `k` runs are woven in, and later ones keep their slots. */
  ghost predicate PlacedSoFar(base: seq<Item>, fs: seq<Fragment>, ps: seq<nat>, k: nat, items: seq<Item>) {
    && |fs| == |ps| && k <= |fs| && Places(ps, |base|) && Places(ps[..k], |base|)
    && items == Woven(base, ps[..k], RunItems(fs)[..k]) && Placed(base, fs, ps, k)
  }

  lemma {:induction false} NothingWoven(base: seq<Item>, ps: seq<nat>, runs: seq<seq<Item>>)
    ensures Places(ps[..0], |base|) && Woven(base, ps[..0], runs[..0]) == base
  {
  }

  lemma {:induction false} AllPlaced(base: seq<Item>, fs: seq<Fragment>, ps: seq<nat>, items: seq<Item>)
    requires PlacedSoFar(base, fs, ps, |fs|, items)
    ensures Places(ps, |base|) && items == Woven(base, ps, RunItems(fs))
  {
    assert ps[..|fs|] == ps && RunItems(fs)[..|fs|] == RunItems(fs);
  }

  method PlaceNext(ghost u: set<Operation>, ghost a: set<Operation>, ghost base: seq<Item>, ghost ps: seq<nat>,
                   frags: seq<Fragment>, o: Operation, k: nat) returns (ok: bool, r: seq<Fragment>)
    requires Next(u, a, o) && o.Edit? && k < |o.inserts| && NonEmptyRuns(frags) && Partly(a, o, k, Items(frags))
    requires Valid(NodesOf(base)) && Minted(NodesOf(base), RunFragments(o.inserts), ps)
    requires PlacedSoFar(base, RunFragments(o.inserts), ps, k, Items(frags))
    ensures ok && NonEmptyRuns(r) && Partly(a, o, k + 1, Items(r))
    ensures DelLists(r) <= DelLists(frags) + {[]}
    ensures PlacedSoFar(base, RunFragments(o.inserts), ps, k + 1, Items(r))
  {
    RunCanGo(u, a, o, k, Items(frags));
    PartlyIsValid(a, o, k, Items(frags));
    ok, r := SequenceOrder.Integrate(frags, RunFragment(o.inserts[k]), true);
    if ok {
      PlacedNext(base, RunFragments(o.inserts), ps, k, Items(frags));
      hide PlacedSoFar, Minted, Next, Honest;
      SplicedIsPartly(u, a, o, k, Items(frags), Place(DocOf(frags), FirstNode(RunFragment(o.inserts[k]))));
    }
  }

  lemma {:induction false} PartlyIsValid(a: set<Operation>, o: Operation, k: nat, items: seq<Item>)
    requires o.Edit? && k <= |o.inserts| && Partly(a, o, k, items)
    ensures Valid(NodesOf(items))
  {
  }

  lemma {:induction false} PlacedNext(base: seq<Item>, fs: seq<Fragment>, ps: seq<nat>, k: nat, items: seq<Item>)
    requires Valid(NodesOf(base)) && Minted(NodesOf(base), fs, ps) && k < |fs| && PlacedSoFar(base, fs, ps, k, items)
    requires Valid(NodesOf(items)) && Fresh(NodesOf(items), NodesOf(ItemsOf(fs[k])))
    ensures LinkFits(NodesOf(items), FirstNode(fs[k])) && !Has(NodesOf(items), fs[k].origin)
    ensures Place(NodesOf(items), FirstNode(fs[k])) <= |items|
    ensures PlacedSoFar(base, fs, ps, k + 1, Splice(items, Place(NodesOf(items), FirstNode(fs[k])), ItemsOf(fs[k])))
  {
    PlacedStep(base, fs, ps, k);
  }

  // ---- Visibility after the edit -----------------------------------------

  /** Undo entries target nothing this replica has yet to mint. */
  lemma {:induction false} TargetsAreOld(u: set<Operation>, a: set<Operation>, v: Version, actor: ActorId, first: nat,
                                         undo: seq<UndoEntry>, e: UndoEntry)
    requires Honest(u) && Closed(u, a) && IsFrontier(a, v) && OwnApplied(u, a, actor) && UndoTold(a, undo) && e in undo
    requires forall b :: b in v ==> v[b] < first
    ensures e.target.actor == actor ==> e.target.counter < first
  {
    assert Recorded(a, e);
    var q :| q in a && q.Undo? && q.timestamp == e.undo && UndoCount(e.target, e.count) in q.counts;
    assert TargetsKnown(u, q);
    assert UndoCount(e.target, e.count).target == e.target;
    if Knows(u, q, e.target) {
      var p :| p in u && Observed(q.version, p.timestamp) && InsertsId(p, e.target);
      ItemInInterval(u, p, e.target);
      if p in a { assert Observed(v, p.timestamp); }
    } else {
      var p :| p in u && Observed(q.version, p.timestamp) && p.timestamp == e.target;
      if p in a { assert Observed(v, p.timestamp); }
    }
  }

  lemma {:induction false} FreshIsNotUndone(u: set<Operation>, a: set<Operation>, v: Version, actor: ActorId, first: nat,
                                            undo: seq<UndoEntry>, id: Identity)
    requires Honest(u) && Closed(u, a) && IsFrontier(a, v) && OwnApplied(u, a, actor) && UndoTold(a, undo)
    requires forall b :: b in v ==> v[b] < first
    requires id.actor == actor && first <= id.counter
    ensures !Undone(undo, id)
  {
    MaxCountIsMax(undo, id);
    if MaxCount(undo, id) > 0 {
      var e :| e in undo && e.target == id && e.count == MaxCount(undo, id);
      TargetsAreOld(u, a, v, actor, first, undo, e);
    }
  }

  lemma {:induction false} HiddenShown(items: seq<Item>, ranges: seq<Range>, d: Identity, undo: seq<UndoEntry>)
    requires Shown(items, undo) && !Undone(undo, d)
    ensures Shown(HideRanges(items, ranges, d), undo)
  {
    hide Undone, Chosen;
  }

  lemma {:induction false} RunShown(f: Fragment, undo: seq<UndoEntry>)
    requires f.visible && f.deletions == [] && forall j :: 0 <= j < Length(f) ==> !Undone(undo, ItemAt(f, j))
    ensures Shown(ItemsOf(f), undo)
  {
  }

  ghost predicate AllShown(runs: seq<seq<Item>>, undo: seq<UndoEntry>) {
    forall k :: 0 <= k < |runs| ==> Shown(runs[k], undo)
  }

  lemma {:induction false} WovenShown(base: seq<Item>, ps: seq<nat>, runs: seq<seq<Item>>, undo: seq<UndoEntry>)
    requires |ps| == |runs| && Places(ps, |base|) && Shown(base, undo) && AllShown(runs, undo)
    ensures Shown(Woven(base, ps, runs), undo)
    decreases |ps|
  {
    if ps != [] {
      var last := |ps| - 1;
      WovenUnfold(base, ps, runs);
      ShownParts(base, ps[last], undo);
      assert AllShown(runs[..last], undo) && Shown(runs[last], undo);
      WovenShown(base[..ps[last]], ps[..last], runs[..last], undo);
      hide Woven, AllShown;
      ShownConcat(Woven(base[..ps[last]], ps[..last], runs[..last]), runs[last], undo);
      ShownConcat(Woven(base[..ps[last]], ps[..last], runs[..last]) + runs[last], base[ps[last]..], undo);
    }
  }

  lemma {:induction false} ShownParts(items: seq<Item>, p: nat, undo: seq<UndoEntry>)
    requires p <= |items| && Shown(items, undo)
    ensures Shown(items[..p], undo) && Shown(items[p..], undo)
  {
    hide ItemVisible;
  }

  lemma {:induction false} ShownConcat(x: seq<Item>, y: seq<Item>, undo: seq<UndoEntry>)
    requires Shown(x, undo) && Shown(y, undo)
    ensures Shown(x + y, undo)
  {
    hide ItemVisible;
  }

  lemma {:induction false} ShownIsFixed(items: seq<Item>, undo: seq<UndoEntry>)
    requires Shown(items, undo)
    ensures ShowAll(items, undo) == items
  {
    hide ItemVisible;
  }

  /** Everything is shown as it has to be, so publication changes no visibility. */
  lemma {:induction false} EditedIsShown(u: set<Operation>, a: set<Operation>, items: seq<Item>, undo: seq<UndoEntry>, v: Version, actor: ActorId,
                                         first: nat, ranges: seq<Range>, recs: seq<InsertedRun>, ps: seq<nat>, d: Identity)
    requires Honest(u) && Closed(u, a) && IsFrontier(a, v) && OwnApplied(u, a, actor) && UndoTold(a, undo) && Shown(items, undo)
    requires forall b :: b in v ==> v[b] < first
    requires MintedInTurn(recs, actor, first, d.counter) && d.actor == actor
    requires |ps| == |recs| && Places(ps, |items|)
    ensures Shown(Woven(HideRanges(items, ranges, d), ps, RunItems(RunFragments(recs))), undo)
  {
    FreshIsNotUndone(u, a, v, actor, first, undo, d);
    HiddenShown(items, ranges, d, undo);
    var runs := RunItems(RunFragments(recs));
    forall k | 0 <= k < |runs|
      ensures Shown(runs[k], undo)
    {
      RunItemsAt(RunFragments(recs), k);
      var f := RunFragment(recs[k]);
      forall j | 0 <= j < Length(f)
        ensures !Undone(undo, ItemAt(f, j))
      {
        FreshIsNotUndone(u, a, v, actor, first, undo, ItemAt(f, j));
      }
      RunShown(f, undo);
    }
    WovenShown(HideRanges(items, ranges, d), ps, runs, undo);
  }

  // ---- The whole edit ----------------------------------------------------

  lemma {:induction false} DocumentBelow(u: set<Operation>, a: set<Operation>, items: seq<Item>, v: Version, next: nat)
    requires Honest(u) && a <= u && IsFrontier(a, v) && Contents(items) == Supplied(a)
    requires forall b :: b in v ==> v[b] < next
    ensures Below(NodesOf(items), next)
  {
    forall i | 0 <= i < |items|
      ensures items[i].node.id.counter < next
    {
      var c := Content(items[i].node, items[i].content);
      assert c in Contents(items);
      var p :| p in a && c in Supply(p);
      SupplyIsMinted(p, c);
      ItemInInterval(u, p, c.node.id);
      assert Observed(v, p.timestamp);
      assert WellMinted(p, FirstCounter(p));
    }
  }

  /** The visible text of the woven document. */
  lemma {:induction false} EditedText(items: seq<Item>, ranges: seq<Range>, news: seq<seq<Scalar>>, recs: seq<InsertedRun>,
                                      ps: seq<nat>, runs: seq<seq<Item>>, d: Identity)
    requires Linked(NodesOf(items)) && |ranges| == |news| && InSequence(ranges, |Text(items)|)
    requires MintedSoFar(items, ranges, news, recs, ps, runs)
    ensures Places(KeptPlaces(ps, runs), |items|)
    ensures Text(Woven(HideRanges(items, ranges, d), KeptPlaces(ps, runs), RunItems(RunFragments(recs))))
            == Edited(Text(items), ranges, news)
  {
    assert PlacesOf(items, ranges, ps) && RunTexts(runs, news) && |runs| == |ps|;
    assert RunItems(RunFragments(recs)) == KeptRuns(runs);
    hide MintedSoFar, PlacesOf, RunTexts, InSequence;
    WovenText(items, ranges, d, ps, runs, news);
    WovenKept(HideRanges(items, ranges, d), ps, runs);
  }

  /** What an edit of the visible text does to a document: the ranges are
      tombstoned, the runs the operation inserts are woven in at their starts,
      under identities from `first` on, and its deletions name just the scalars
      of the ranges. */
  ghost predicate IsEdit(items: seq<Item>, ranges: seq<Range>, news: seq<seq<Scalar>>, actor: ActorId, first: nat, o: Operation, after: seq<Item>) {
    && Linked(NodesOf(items)) && o.Edit? && o.timestamp.actor == actor && o.ranges == |ranges|
    && MintedInTurn(o.inserts, actor, first, o.timestamp.counter)
    && (forall id :: Deletes(o, id) <==> id in ChosenIds(items, ranges))
    && |o.deletions| <= Removed(ranges)
    && exists ps, runs :: MintedSoFar(items, ranges, news, o.inserts, ps, runs) && IsWoven(items, ranges, o, ps, runs, after)
  }

  ghost predicate IsWoven(items: seq<Item>, ranges: seq<Range>, o: Operation, ps: seq<nat>, runs: seq<seq<Item>>, after: seq<Item>)
    requires o.Edit?
  {
    && |ps| == |runs| && Places(KeptPlaces(ps, runs), |items|)
    && |KeptPlaces(ps, runs)| == |o.inserts|
    && after == Woven(HideRanges(items, ranges, o.timestamp), KeptPlaces(ps, runs), RunItems(RunFragments(o.inserts)))
  }

  /** A local edit by the general path. */
  method EditLocally(ghost u: set<Operation>, ghost a: set<Operation>, actor: ActorId, frags: seq<Fragment>, index: RunIndex, undo: seq<UndoEntry>,
                     v: Version, next: nat, ranges: seq<Range>, news: seq<seq<Scalar>>)
    returns (o: Operation, frags': seq<Fragment>, index': RunIndex, v': Version, next': nat)
    requires IsCurrent(u, a, frags, index, undo, v, next) && next > 0 && ValidActor(actor) && OwnApplied(u, a, actor)
    requires |ranges| == |news| && InSequence(ranges, |Text(Items(frags))|)
    ensures o.Edit? && MintedFrom(u, a, v, o) && (Accepted(o) <==> WithinLimits(o))
    ensures IsCurrent(u + {o}, a + {o}, frags', index', undo, v', next') && OwnApplied(u + {o}, a + {o}, actor)
    ensures IsEdit(Items(frags), ranges, news, actor, next, o, Items(frags'))
    ensures Text(Items(frags')) == Edited(Text(Items(frags)), ranges, news)
    ensures |o.deletions| == FlatRunCount(Items(frags), ranges)
  {
    DocumentBelow(u, a, Items(frags), v, next);
    ghost var ps, runs;
    var recs, top;
    recs, top, ps, runs := MintInserts(frags, ranges, news, actor, next);
    hide *;
    var ts := Identity(actor, top);
    if index.valid { NewIsClean(u, a, frags, index, undo, v, next, recs, ts); }
    var hidden, ids := TombstoneRanges(frags, ranges, ts);
    var deletions := Pack(ids);
    o := Edit(ts, v, false, recs, deletions, |ranges|);
    CurrentIsDistinct(u, a, frags, index, undo, v, next);
    ChosenOnce(Items(frags), ranges, ids);
    ghost var fps := KeptPlaces(ps, runs);
    PrepareEdit(u, a, frags, index, undo, v, next, actor, ranges, news, recs, ps, runs, o);
    DocIsNodes(hidden);
    var ok, placed := PlaceInserts(u + {o}, a, Items(hidden), fps, hidden, o);
    CurrentParts(u, a, frags, index, undo, v, next);
    if index.valid { PlacedIsKept(u + {o}, a, o, hidden, placed, undo); }
    frags', index' := Publish(frags, index, placed, undo);
    v', next' := Observe(v, ts), top + 1;
    SpendsLess(index, |frags'|, index');
    FinishEdit(u, a, frags, index, undo, v, next, actor, ranges, news, recs, ps, runs, o, placed, frags', index');
  }

  lemma {:induction false} CurrentIsDistinct(u: set<Operation>, a: set<Operation>, frags: seq<Fragment>, index: RunIndex, undo: seq<UndoEntry>,
                                             v: Version, next: nat)
    requires IsCurrent(u, a, frags, index, undo, v, next)
    ensures Distinct(NodesOf(Items(frags)))
  {
  }

  /** A deletion above every counter seen is on no run. */
  lemma {:induction false} NewIsClean(u: set<Operation>, a: set<Operation>, frags: seq<Fragment>, index: RunIndex, undo: seq<UndoEntry>,
                                      v: Version, next: nat, recs: seq<InsertedRun>, d: Identity)
    requires IsCurrent(u, a, frags, index, undo, v, next) && index.valid && MintedInTurn(recs, d.actor, next, d.counter)
    ensures CleanFor(frags, d)
  {
    StateIsClean(u, a, frags, index, undo);
    TilesAbove(recs, d.actor, next, d.counter);
    forall i | 0 <= i < |frags|
      ensures RunClean(frags[i], d)
    {
      if d in frags[i].deletions {
        var q := DeletionIsApplied(a, frags, i, d);
        AppliedIsBelow(u, a, v, next, q);
      }
    }
    hide *;
  }

  lemma {:induction false} AppliedIsBelow(u: set<Operation>, a: set<Operation>, v: Version, next: nat, q: Operation)
    requires Honest(u) && a <= u && IsFrontier(a, v) && (forall b :: b in v ==> v[b] < next) && q in a
    ensures q.timestamp.counter < next
  {
    assert Observed(v, q.timestamp) && WellMinted(q, FirstCounter(q));
  }

  /** The staged document can be indexed. */
  lemma {:induction false} PlacedIsKept(u: set<Operation>, a: set<Operation>, o: Operation, hidden: seq<Fragment>, placed: seq<Fragment>,
                                        undo: seq<UndoEntry>)
    requires Next(u, a, o) && o.Edit? && UndoTold(a, undo) && NonEmptyRuns(placed) && Partly(a, o, |o.inserts|, Items(placed))
    requires CleanFor(hidden, o.timestamp) && DelLists(placed) <= DelLists(hidden) + {[]}
    ensures Indexable(ShowRuns(placed, undo))
  {
    hide *;
    StagedIsApplied(u, a, o, placed, undo);
    PlacedIsClean(hidden, placed, o.timestamp);
    NextInside(u, a, o);
    PublishedIsKept(u, a + {o}, placed, undo);
  }

  lemma {:induction false} PlacedIsClean(hidden: seq<Fragment>, placed: seq<Fragment>, d: Identity)
    requires CleanFor(hidden, d) && DelLists(placed) <= DelLists(hidden) + {[]}
    ensures Clean(placed)
  {
    forall j | 0 <= j < |placed|
      ensures NoRepeats(placed[j].deletions)
    {
      assert placed[j].deletions in DelLists(placed);
      if placed[j].deletions in DelLists(hidden) {
        var f :| f in hidden && f.deletions == placed[j].deletions;
        assert RunClean(f, d);
      }
    }
  }

  lemma {:induction false} PrepareEdit(u: set<Operation>, a: set<Operation>, frags: seq<Fragment>, index: RunIndex, undo: seq<UndoEntry>,
                                       v: Version, next: nat, actor: ActorId, ranges: seq<Range>, news: seq<seq<Scalar>>,
                                       recs: seq<InsertedRun>, ps: seq<nat>, runs: seq<seq<Item>>, o: Operation)
    requires IsCurrent(u, a, frags, index, undo, v, next) && next > 0 && ValidActor(actor) && OwnApplied(u, a, actor)
    requires |ranges| == |news| && InSequence(ranges, |Text(Items(frags))|)
    requires MintedSoFar(Items(frags), ranges, news, recs, ps, runs) && MintedInTurn(recs, actor, next, o.timestamp.counter)
    requires o.Edit? && !o.markerEdit && o.inserts == recs && o.version == v && o.timestamp.actor == actor
    requires forall id :: Covered(o.deletions, id) <==> id in ChosenIds(Items(frags), ranges)
    requires forall r :: r in o.deletions ==> r.count > 0
    ensures MintedFrom(u, a, v, o) && (Accepted(o) <==> WithinLimits(o)) && Next(u + {o}, a, o)
    ensures Partly(a, o, 0, HideRanges(Items(frags), ranges, o.timestamp))
    ensures Valid(NodesOf(HideRanges(Items(frags), ranges, o.timestamp)))
    ensures Minted(NodesOf(HideRanges(Items(frags), ranges, o.timestamp)), RunFragments(recs), KeptPlaces(ps, runs))
    ensures forall id :: Deletes(o, id) <==> id in ChosenIds(Items(frags), ranges)
  {
    var items := Items(frags);
    assert NodesOf(HideRanges(items, ranges, o.timestamp)) == NodesOf(items);
    CoveredIsDeleted(o);
    assert Prepared(u, a, items, v, actor, next, ranges, recs, KeptPlaces(ps, runs), o);
    HiddenIsPartly(a, items, ranges, o);
    EmittedIsMinted(u, a, items, v, actor, next, ranges, recs, KeptPlaces(ps, runs), o);
    EmittedIsNext(u, a, v, o);
  }

  lemma {:induction false} CoveredIsDeleted(o: Operation)
    requires o.Edit?
    ensures forall id :: Deletes(o, id) <==> Covered(o.deletions, id)
  {
    forall id | Covered(o.deletions, id)
      ensures Deletes(o, id)
    {
      var r :| r in o.deletions && InDeletion(r, id);
      var k :| 0 <= k < |o.deletions| && o.deletions[k] == r;
    }
  }

  lemma {:induction false} FinishEdit(u: set<Operation>, a: set<Operation>, frags: seq<Fragment>, index: RunIndex, undo: seq<UndoEntry>,
                                      v: Version, next: nat, actor: ActorId, ranges: seq<Range>, news: seq<seq<Scalar>>,
                                      recs: seq<InsertedRun>, ps: seq<nat>, runs: seq<seq<Item>>, o: Operation,
                                      placed: seq<Fragment>, frags': seq<Fragment>, index': RunIndex)
    requires IsCurrent(u, a, frags, index, undo, v, next) && OwnApplied(u, a, actor) && o.timestamp.actor == actor
    requires |ranges| == |news| && InSequence(ranges, |Text(Items(frags))|)
    requires MintedSoFar(Items(frags), ranges, news, recs, ps, runs) && MintedInTurn(recs, actor, next, o.timestamp.counter)
    requires MintedFrom(u, a, v, o) && Next(u + {o}, a, o) && o.Edit? && o.inserts == recs && Partly(a, o, |o.inserts|, Items(placed))
    requires Places(KeptPlaces(ps, runs), |Items(frags)|)
    requires Items(placed) == Woven(HideRanges(Items(frags), ranges, o.timestamp), KeptPlaces(ps, runs), RunItems(RunFragments(recs)))
    requires forall id :: Deletes(o, id) <==> id in ChosenIds(Items(frags), ranges)
    requires |o.deletions| <= Removed(ranges) && o.ranges == |ranges|
    requires NonEmptyRuns(frags') && (frags' == ShowRuns(placed, undo) || frags' == placed) && IndexKept(frags', index')
    requires Spends(index, |frags'| + 1, index')
    ensures IsCurrent(u + {o}, a + {o}, frags', index', undo, Observe(v, o.timestamp), o.timestamp.counter + 1)
    ensures OwnApplied(u + {o}, a + {o}, actor)
    ensures IsEdit(Items(frags), ranges, news, actor, next, o, Items(frags'))
    ensures Text(Items(frags')) == Edited(Text(Items(frags)), ranges, news)
  {
    hide *;
    DocIsNodes(frags);
    CurrentParts(u, a, frags, index, undo, v, next);
    MintedIsLinked(Items(frags), ranges, news, recs, ps, runs);
    EditedIsShown(u, a, Items(frags), undo, v, actor, next, ranges, recs, KeptPlaces(ps, runs), o.timestamp);
    StagedIsShown(u, a, o, placed, undo, frags');
    EditedText(Items(frags), ranges, news, recs, ps, runs, o.timestamp);
    IsEditBy(Items(frags), ranges, news, actor, next, o, ps, runs, Items(frags'));
    OwnAppliedAfter(u, a, actor, o);
    TilesAbove(recs, actor, next, o.timestamp.counter);
    CurrentAfter(u, a, frags, index, undo, v, next, o, frags', index', undo);
  }

  lemma {:induction false} CurrentParts(u: set<Operation>, a: set<Operation>, frags: seq<Fragment>, index: RunIndex, undo: seq<UndoEntry>,
                                        v: Version, next: nat)
    requires IsCurrent(u, a, frags, index, undo, v, next)
    ensures Honest(u) && Closed(u, a) && IsFrontier(a, v) && UndoTold(a, undo) && Shown(Items(frags), undo)
    ensures Linked(NodesOf(Items(frags)))
    ensures forall b :: b in v ==> v[b] < next
  {
  }

  lemma {:induction false} MintedIsLinked(items: seq<Item>, ranges: seq<Range>, news: seq<seq<Scalar>>, recs: seq<InsertedRun>,
                                          ps: seq<nat>, runs: seq<seq<Item>>)
    requires Linked(NodesOf(items)) && MintedSoFar(items, ranges, news, recs, ps, runs)
    ensures |KeptPlaces(ps, runs)| == |recs| && |ps| == |runs|
  {
  }

  lemma {:induction false} StagedIsShown(u: set<Operation>, a: set<Operation>, o: Operation, placed: seq<Fragment>, undo: seq<UndoEntry>, frags': seq<Fragment>)
    requires Next(u + {o}, a, o) && o.Edit? && UndoTold(a, undo) && Partly(a, o, |o.inserts|, Items(placed)) && Shown(Items(placed), undo)
    requires frags' == ShowRuns(placed, undo) || frags' == placed
    ensures Items(frags') == Items(placed) && Represents(a + {o}, Items(frags'), undo)
  {
    hide *;
    StagedIsApplied(u + {o}, a, o, placed, undo);
    ShowRunsItems(placed, undo);
    ShownIsFixed(Items(placed), undo);
  }

  lemma {:induction false} IsEditBy(items: seq<Item>, ranges: seq<Range>, news: seq<seq<Scalar>>, actor: ActorId, first: nat, o: Operation,
                                    ps: seq<nat>, runs: seq<seq<Item>>, after: seq<Item>)
    requires Linked(NodesOf(items)) && o.Edit? && o.timestamp.actor == actor && MintedInTurn(o.inserts, actor, first, o.timestamp.counter)
    requires o.ranges == |ranges|
    requires (forall id :: Deletes(o, id) <==> id in ChosenIds(items, ranges)) && |o.deletions| <= Removed(ranges)
    requires MintedSoFar(items, ranges, news, o.inserts, ps, runs)
    requires |ps| == |runs| && |KeptPlaces(ps, runs)| == |o.inserts| && Places(KeptPlaces(ps, runs), |items|)
    requires after == Woven(HideRanges(items, ranges, o.timestamp), KeptPlaces(ps, runs), RunItems(RunFragments(o.inserts)))
    ensures IsEdit(items, ranges, news, actor, first, o, after)
  {
    hide Linked, MintedInTurn, Deletes, ChosenIds, MintedSoFar, Places, KeptPlaces, Woven, RunItems, RunFragments, HideRanges, Removed;
    assert IsWoven(items, ranges, o, ps, runs, after);
  }

  /** What bounds the parts of an edit's operation: a run for each new text at
      most, and a deletion for each scalar taken out. */
  lemma {:induction false} EditIsBounded(items: seq<Item>, ranges: seq<Range>, news: seq<seq<Scalar>>, actor: ActorId, first: nat, o: Operation,
                                         after: seq<Item>)
    requires IsEdit(items, ranges, news, actor, first, o, after)
    ensures |o.inserts| <= |news| && |o.deletions| <= Removed(ranges)
  {
    var ps, runs :| MintedSoFar(items, ranges, news, o.inserts, ps, runs) && IsWoven(items, ranges, o, ps, runs, after);
    KeptIsFewer(runs);
    hide Minted, Removed;
  }

  lemma {:induction false} KeptIsFewer(runs: seq<seq<Item>>)
    ensures |KeptRuns(runs)| <= |runs|
  {
    if runs != [] { KeptIsFewer(runs[..|runs| - 1]); }
  }

  lemma {:induction false} OwnAppliedAfter(u: set<Operation>, a: set<Operation>, actor: ActorId, o: Operation)
    requires OwnApplied(u, a, actor)
    ensures OwnApplied(u + {o}, a + {o}, actor)
  {
  }

  lemma {:induction false} TilesAbove(recs: seq<InsertedRun>, actor: ActorId, first: nat, next: nat)
    requires MintedInTurn(recs, actor, first, next)
    ensures first <= next
  {
  }

  lemma {:induction false} CurrentAfter(u: set<Operation>, a: set<Operation>, frags: seq<Fragment>, index: RunIndex, undo: seq<UndoEntry>,
                                        v: Version, next: nat, o: Operation, frags': seq<Fragment>, index': RunIndex, undo': seq<UndoEntry>)
    requires IsCurrent(u, a, frags, index, undo, v, next) && MintedFrom(u, a, v, o) && Next(u + {o}, a, o)
    requires NonEmptyRuns(frags') && Represents(a + {o}, Items(frags'), undo') && IndexKept(frags', index')
    requires Spends(index, |frags'| + 1, index') && next <= o.timestamp.counter
    ensures IsCurrent(u + {o}, a + {o}, frags', index', undo', Observe(v, o.timestamp), o.timestamp.counter + 1)
  {
    ApplyKeepsClosed(u + {o}, a, o);
    StillUnspent(a, o, index, frags', undo', |frags'| + 1, index');
    CoversIsOrder(v, v, v);
    FrontierAdvances(u + {o}, a, v, next, o);
    ApplyKeepsFrontier(u + {o}, a, v, o);
  }
}
