/** Applying one ready operation of an honest history to a document: the append
    and whole-run shortcuts, and the general path of marking, placement and
    publication. All of them reach the document the larger operation set
    represents. */
module RemoteEdits {
  import opened Ids
  import opened FugueOrder
  import opened FugueLaws
  import opened Fragments
  import opened Histories
  import opened SequenceOrder
  import opened Indexes
  import opened DeletionRuns
  import opened Representation
  import opened Visibility

  /** The document state of a replica that has applied `a`. */
  ghost predicate State(u: set<Operation>, a: set<Operation>, frags: seq<Fragment>, index: RunIndex, undo: seq<UndoEntry>) {
    && Honest(u) && Closed(u, a)
    && NonEmptyRuns(frags) && Represents(a, Items(frags), undo)
    && IndexKept(frags, index) && Unspent(a, index)
  }

  /** Each applied operation publishes the document once, and takes at most one
      handle for each of its runs and one more. No run is empty, so a replica that
      has applied `a` has taken fewer handles than this. */
  ghost function HandleBound(a: set<Operation>): nat {
    1 + |a| * (|Supplied(a)| + 1)
  }

  ghost predicate Unspent(a: set<Operation>, index: RunIndex) {
    HandleBound(a) < U64 ==> 0 < index.nextRun <= HandleBound(a)
  }

  // ---- Handles -----------------------------------------------------------

  lemma {:induction false} RunsAreFew(frags: seq<Fragment>)
    requires NonEmptyRuns(frags)
    ensures |frags| <= |Items(frags)|
  {
    if frags != [] {
      var init, last := frags[..|frags| - 1], frags[|frags| - 1];
      RunsAreFew(init);
      assert frags == init + [last];
      ItemsConcat(init, [last]);
      OneRun(last);
    }
  }

  lemma {:induction false} OneRun(f: Fragment)
    ensures |Items([f])| == Length(f)
  {
    assert [f][1..] == [] && [f][..0] == [];
  }

  lemma {:induction false} ContentsCount(items: seq<Item>)
    requires Distinct(NodesOf(items))
    ensures |Contents(items)| == |items|
  {
    if items != [] {
      var n := |items| - 1;
      var init, c := items[..n], Content(items[n].node, items[n].content);
      forall i, j | 0 <= i < j < |NodesOf(init)|
        ensures NodesOf(init)[i].id != NodesOf(init)[j].id
      {
        assert NodesOf(init)[i] == NodesOf(items)[i] && NodesOf(init)[j] == NodesOf(items)[j];
      }
      ContentsCount(init);
      assert Contents(items) == Contents(init) + {c};
      LastIsNew(items);
    } else {
      assert Contents(items) == {};
    }
  }

  lemma {:induction false} LastIsNew(items: seq<Item>)
    requires Distinct(NodesOf(items)) && items != []
    ensures Content(items[|items| - 1].node, items[|items| - 1].content) !in Contents(items[..|items| - 1])
  {
    forall i | 0 <= i < |items| - 1
      ensures items[i].node != items[|items| - 1].node
    {
      assert NodesOf(items)[i].id != NodesOf(items)[|items| - 1].id;
    }
  }

  lemma {:induction false} BoundGrows(k: nat, m: nat, n: nat)
    requires m <= n
    ensures 1 + (k + 1) * (n + 1) >= (1 + k * (m + 1)) + (n + 1)
  {
  }

  /** Publishing the runs of one more operation stays within the bound. */
  lemma {:induction false} StillUnspent(a: set<Operation>, o: Operation, index: RunIndex, frags: seq<Fragment>, undo: seq<UndoEntry>, n: nat,
                                        index': RunIndex)
    requires Unspent(a, index) && o !in a && Spends(index, n, index') && n <= |frags| + 1
    requires NonEmptyRuns(frags) && Represents(a + {o}, Items(frags), undo)
    ensures Unspent(a + {o}, index')
  {
    RepresentedCount(a + {o}, frags, undo);
    RunsAreFew(frags);
    SuppliedGrows(a, o);
    BoundGrows(|a|, |Supplied(a)|, |Supplied(a + {o})|);
  }

  lemma {:induction false} SuppliedGrows(a: set<Operation>, o: Operation)
    ensures |Supplied(a)| <= |Supplied(a + {o})|
  {
    var x, y := Supplied(a), Supplied(a + {o});
    assert x <= y;
    assert y == x + (y - x);
  }

  lemma {:induction false} RepresentedCount(a: set<Operation>, frags: seq<Fragment>, undo: seq<UndoEntry>)
    requires Represents(a, Items(frags), undo)
    ensures |Items(frags)| == |Supplied(a)|
  {
    assert Distinct(NodesOf(Items(frags)));
    ContentsCount(Items(frags));
  }

  // ---- Honest documents can be indexed -----------------------------------

  /** Distinct items make disjoint runs. */
  lemma {:induction false} RunsAreSeparate(frags: seq<Fragment>, i: nat, j: nat)
    requires NonEmptyRuns(frags) && Distinct(DocOf(frags)) && i < |frags| && j < |frags| && i != j
    ensures Separate(frags[i], frags[j])
  {
    hide Items, Distinct;
    if !Separate(frags[i], frags[j]) {
      var c := if frags[i].origin.counter < frags[j].origin.counter then frags[j].origin.counter else frags[i].origin.counter;
      OneHolder(frags, Pos(i, c - frags[i].origin.counter), Pos(j, c - frags[j].origin.counter));
    }
  }

  lemma {:induction false} ItemIsUsable(u: set<Operation>, a: set<Operation>, frags: seq<Fragment>, i: nat)
    requires Honest(u) && a <= u && NonEmptyRuns(frags) && Contents(Items(frags)) <= Supplied(a) && i < |frags|
    ensures Usable(frags[i].origin)
  {
    FlatItem(frags, Pos(i, 0));
    var x := Items(frags)[Flat(frags, Pos(i, 0))];
    var c := Content(x.node, x.content);
    assert c in Contents(Items(frags));
    var p :| p in a && c in Supply(p);
    SupplyIsMinted(p, c);
    assert WellMinted(p, FirstCounter(p));
    ItemInInterval(u, p, frags[i].origin);
  }

  /** A deletion on a run is an applied operation. */
  lemma {:induction false} DeletionIsApplied(a: set<Operation>, frags: seq<Fragment>, i: nat, d: Identity) returns (q: Operation)
    requires NonEmptyRuns(frags) && DeletionsTold(a, Items(frags)) && i < |frags| && d in frags[i].deletions
    ensures q in a && q.timestamp == d
  {
    FlatItem(frags, Pos(i, 0));
    var x := Items(frags)[Flat(frags, Pos(i, 0))];
    assert d in x.dels;
    q :| q in a && q.timestamp == d && Deletes(q, x.node.id);
  }

  /** What an honest history makes of a document can always be indexed. */
  lemma {:induction false} RepresentedIsIndexable(u: set<Operation>, a: set<Operation>, frags: seq<Fragment>, undo: seq<UndoEntry>)
    requires Honest(u) && a <= u && NonEmptyRuns(frags) && Represents(a, Items(frags), undo) && Clean(frags)
    ensures Indexable(frags)
  {
    forall i | 0 <= i < |frags|
      ensures RunUsable(frags[i])
    {
      ItemIsUsable(u, a, frags, i);
      forall j | 0 <= j < |frags[i].deletions|
        ensures Usable(frags[i].deletions[j])
      {
        var q := DeletionIsApplied(a, frags, i, frags[i].deletions[j]);
        assert WellMinted(q, FirstCounter(q));
      }
    }
    forall i, j | 0 <= i < j < |frags|
      ensures Separate(frags[i], frags[j])
    {
      RunsAreSeparate(frags, i, j);
    }
    hide *;
  }

  /** A new operation has deleted nothing yet, so marking with it repeats nothing. */
  lemma {:induction false} MarkedIsClean(u: set<Operation>, a: set<Operation>, o: Operation, frags: seq<Fragment>, undo: seq<UndoEntry>,
                      lists: set<seq<Identity>>, r: seq<Fragment>)
    requires Next(u, a, o) && NonEmptyRuns(frags) && Represents(a, Items(frags), undo) && Clean(frags)
    requires lists == DelLists(frags) && DelLists(r) <= lists + WithDeletion(lists, o.timestamp) + {[]}
    ensures Clean(r)
  {
    forall i | 0 <= i < |frags|
      ensures o.timestamp !in frags[i].deletions
    {
      if o.timestamp in frags[i].deletions {
        var q := DeletionIsApplied(a, frags, i, o.timestamp);
        TimestampsDiffer(u, a, o, q);
      }
    }
    forall j | 0 <= j < |r|
      ensures NoRepeats(r[j].deletions)
    {
      assert r[j].deletions in DelLists(r);
      CleanList(frags, lists, o.timestamp, r[j].deletions);
    }
    hide *;
  }

  lemma {:induction false} TimestampsDiffer(u: set<Operation>, a: set<Operation>, o: Operation, q: Operation)
    requires Next(u, a, o) && q in a
    ensures q.timestamp != o.timestamp
  {
  }

  lemma {:induction false} CleanList(frags: seq<Fragment>, lists: set<seq<Identity>>, d: Identity, l: seq<Identity>)
    requires Clean(frags) && lists == DelLists(frags) && l in lists + WithDeletion(lists, d) + {[]}
    requires forall i :: 0 <= i < |frags| ==> d !in frags[i].deletions
    ensures NoRepeats(l)
  {
    if l in lists {
      var f :| f in frags && f.deletions == l;
    } else if l in WithDeletion(lists, d) {
      var m :| m in lists && l == m + [d];
      var f :| f in frags && f.deletions == m;
    }
  }

  /** Publish staged fragments: visibility, then indexes. */
  method Publish(was: seq<Fragment>, index: RunIndex, frags: seq<Fragment>, undo: seq<UndoEntry>)
    returns (r: seq<Fragment>, index': RunIndex)
    requires IndexKept(was, index)
    requires NonEmptyRuns(frags)
    ensures NonEmptyRuns(r) && r == ShowRuns(frags, undo)
    ensures (index.valid ==> Indexable(r)) ==> IndexKept(r, index')
    ensures Spends(index, |frags|, index')
  {
    r := RefreshAll(frags, undo);
    ShowKeepsIndexable(frags, undo);
    index' := SetFragments(was, index, r);
  }

  /** What publishing needs once the document is that of an honest history. */
  lemma {:induction false} PublishedIsKept(u: set<Operation>, a: set<Operation>, frags: seq<Fragment>, undo: seq<UndoEntry>)
    requires Honest(u) && a <= u && NonEmptyRuns(frags) && Clean(frags)
    requires Represents(a, Items(ShowRuns(frags, undo)), undo)
    ensures Indexable(ShowRuns(frags, undo))
  {
    hide *;
    ShownIsClean(frags, undo);
    RepresentedIsIndexable(u, a, ShowRuns(frags, undo), undo);
  }

  lemma {:induction false} StateIsClean(u: set<Operation>, a: set<Operation>, frags: seq<Fragment>, index: RunIndex, undo: seq<UndoEntry>)
    requires State(u, a, frags, index, undo) && index.valid
    ensures Clean(frags) && NonEmptyRuns(frags) && Represents(a, Items(frags), undo)
  {
  }

  lemma {:induction false} ShownIsClean(frags: seq<Fragment>, undo: seq<UndoEntry>)
    requires Clean(frags) && NonEmptyRuns(frags)
    ensures Clean(ShowRuns(frags, undo)) && NonEmptyRuns(ShowRuns(frags, undo))
  {
  }

  lemma {:induction false} NextInside(u: set<Operation>, a: set<Operation>, o: Operation)
    requires Next(u, a, o)
    ensures Honest(u) && a + {o} <= u
  {
  }

  lemma ShowKeepsIndexable(frags: seq<Fragment>, undo: seq<UndoEntry>)
    ensures Indexable(frags) ==> Indexable(ShowRuns(frags, undo))
  {
    var r := ShowRuns(frags, undo);
    assert forall i :: 0 <= i < |frags| ==> RunUsable(frags[i]) ==> RunUsable(r[i]);
    assert forall i, j :: 0 <= i < j < |frags| ==> Separate(frags[i], frags[j]) ==> Separate(r[i], r[j]);
  }

  // ---- The general path --------------------------------------------------

  /** A deletion of text names no marker, the deletion of a marker names one. */
  ghost predicate KindsFit(frags: seq<Fragment>, o: Operation)
    requires o.Edit?
  {
    if o.markerEdit && o.deletions != [] then
      exists i :: 0 <= i < |frags| && Contains(frags[i], o.deletions[0].first) && frags[i].marker
    else
      forall i :: 0 <= i < |frags| && frags[i].marker ==> !Deletes(o, frags[i].origin)
  }

  method CheckKinds(frags: seq<Fragment>, o: Operation) returns (ok: bool)
    requires o.Edit? && NonEmptyRuns(frags) && Distinct(DocOf(frags))
    ensures ok <==> KindsFit(frags, o)
  {
    if o.markerEdit && o.deletions != [] {
      var id := o.deletions[0].first;
      var at := FindItem(frags, id);
      forall i | 0 <= i < |frags| && Contains(frags[i], id)
        ensures at.Some? && i == at.value.frag
      {
        ContainsHas(frags, i, id);
        OneHolder(frags, Pos(i, id.counter - frags[i].origin.counter), at.value);
      }
      return at.Some? && frags[at.value.frag].marker;
    }
    for i := 0 to |frags|
      invariant forall j :: 0 <= j < i && frags[j].marker ==> !Deletes(o, frags[j].origin)
    {
      if frags[i].marker {
        for k := 0 to |o.deletions|
          invariant forall m :: 0 <= m < k ==> !InDeletion(o.deletions[m], frags[i].origin)
        {
          if InDeletion(o.deletions[k], frags[i].origin) { return false; }
        }
      }
    }
    return true;
  }

  lemma OneHolder(frags: seq<Fragment>, p: Pos, q: Pos)
    requires NonEmptyRuns(frags) && Distinct(DocOf(frags)) && InRun(frags, p) && InRun(frags, q)
    requires IdAt(frags, p) == IdAt(frags, q)
    ensures p == q
  {
    PosIndex(frags, p);
    PosIndex(frags, q);
    FlatOrder(frags, p, q);
  }

  /** An item is a marker exactly when the operation that supplied it says so. */
  lemma MarkerIsTold(u: set<Operation>, a: set<Operation>, frags: seq<Fragment>, at: Pos) returns (p: Operation)
    requires Honest(u) && a <= u && Contents(Items(frags)) <= Supplied(a) && InRun(frags, at)
    ensures p in a && InsertsId(p, IdAt(frags, at))
    ensures InsertsMarker(p, IdAt(frags, at)) <==> frags[at.frag].marker
  {
    FlatItem(frags, at);
    var x := Items(frags)[Flat(frags, at)];
    var c := Content(x.node, x.content);
    assert c in Contents(Items(frags));
    p :| p in a && c in Supply(p);
    SupplyIsMinted(p, c);
    assert WellMinted(p, FirstCounter(p));
    MarkerRun(p, c);
  }

  lemma MarkerRun(p: Operation, c: Content)
    requires c in Supply(p) && forall j, k :: 0 <= j < k < |p.inserts| ==> Histories.RunsApart(p.inserts[j], p.inserts[k])
    ensures InsertsMarker(p, c.node.id) <==> c.scalar.None?
  {
    SupplyIsMinted(p, c);
    var k: nat, j: nat :| Inserts(p, k, j, c.node, c.scalar);
    assert RunHolds(p.inserts[k], c.node.id);
    forall m | 0 <= m < |p.inserts| && RunHolds(p.inserts[m], c.node.id)
      ensures m == k
    {
    }
  }

  lemma HonestKindsFit(u: set<Operation>, a: set<Operation>, frags: seq<Fragment>, o: Operation)
    requires Next(u, a, o) && o.Edit? && NonEmptyRuns(frags) && Contents(Items(frags)) == Supplied(a)
    ensures KindsFit(frags, o)
  {
    assert WellMinted(o, FirstCounter(o)) && DeletionsKnown(u, o);
    if o.markerEdit && o.deletions != [] {
      var id := o.deletions[0].first;
      assert InDeletion(o.deletions[0], id) && Deletes(o, id);
      KnownIsThere(u, a, o, Items(frags), id);
      HasContains(frags, id);
      var i :| 0 <= i < |frags| && Contains(frags[i], id);
      ContainsHas(frags, i, id);
      var p := MarkerIsTold(u, a, frags, Pos(i, id.counter - frags[i].origin.counter));
    } else {
      forall i | 0 <= i < |frags| && frags[i].marker
        ensures !Deletes(o, frags[i].origin)
      {
        var p := MarkerIsTold(u, a, frags, Pos(i, 0));
      }
    }
  }

  /** Integrate the runs of an edit one after the other. */
  method PlaceRuns(ghost u: set<Operation>, ghost a: set<Operation>, frags: seq<Fragment>, o: Operation)
    returns (ok: bool, r: seq<Fragment>)
    requires Next(u, a, o) && o.Edit? && NonEmptyRuns(frags) && Partly(a, o, 0, Items(frags))
    ensures ok && NonEmptyRuns(r) && Partly(a, o, |o.inserts|, Items(r))
    ensures DelLists(r) <= DelLists(frags) + {[]}
  {
    hide DelLists;
    ok, r := true, frags;
    for k := 0 to |o.inserts|
      invariant ok && NonEmptyRuns(r) && Partly(a, o, k, Items(r))
      invariant DelLists(r) <= DelLists(frags) + {[]}
    {
      RunCanGo(u, a, o, k, Items(r));
      ghost var before := r;
      ok, r := SequenceOrder.Integrate(r, RunFragment(o.inserts[k]), true);
      if !ok { return; }
      SplicedIsPartly(u, a, o, k, Items(before), Place(DocOf(before), FirstNode(RunFragment(o.inserts[k]))));
    }
  }

  /** Mark, place, publish. It fails only for operations no honest replica mints. */
  method PlaceEdit(ghost u: set<Operation>, ghost a: set<Operation>, frags: seq<Fragment>, index: RunIndex, undo: seq<UndoEntry>, o: Operation)
    returns (ok: bool, r: seq<Fragment>, index': RunIndex)
    requires State(u, a, frags, index, undo) && Next(u, a, o) && o.Edit?
    ensures ok && State(u, a + {o}, r, index', undo)
  {
    HonestKindsFit(u, a, frags, o);
    var fit := CheckKinds(frags, o);
    if !fit { return false, frags, index; }
    MarkedIsPartly(u, a, o, Items(frags), undo);
    r := ApplyDeletionRuns(frags, index, o.deletions, o.timestamp);
    ok, r := PlaceRuns(u, a, r, o);
    if !ok { return false, frags, index; }
    StagedIsApplied(u, a, o, r, undo);
    ApplyKeepsClosed(u, a, o);
    if index.valid {
      StateIsClean(u, a, frags, index, undo);
      MarkedIsClean(u, a, o, frags, undo, DelLists(frags), r);
      NextInside(u, a, o);
      PublishedIsKept(u, a + {o}, r, undo);
    }
    r, index' := Publish(frags, index, r, undo);
    StillUnspent(a, o, index, r, undo, |r|, index');
  }

  lemma StagedIsUniform(u: set<Operation>, a: set<Operation>, o: Operation, frags: seq<Fragment>, undo: seq<UndoEntry>)
    requires Next(u, a, o) && o.Edit? && UndoTold(a, undo) && Partly(a, o, |o.inserts|, Items(frags))
    ensures Uniform(frags, undo)
  {
    SuppliedMore(a, o);
    forall e
      ensures e in undo <==> Recorded(a + {o}, e)
    {
      RecordedMore(a, o, e);
    }
    RunsAreUniform(u, a + {o}, frags, undo);
  }

  /** Once staged completely, showing the runs finishes the edit. */
  lemma StagedIsApplied(u: set<Operation>, a: set<Operation>, o: Operation, frags: seq<Fragment>, undo: seq<UndoEntry>)
    requires Next(u, a, o) && o.Edit? && UndoTold(a, undo) && Partly(a, o, |o.inserts|, Items(frags))
    ensures Uniform(frags, undo)
    ensures Represents(a + {o}, Items(ShowRuns(frags, undo)), undo)
  {
    StagedIsUniform(u, a, o, frags, undo);
    EditIsApplied(u, a, o, Items(frags), undo);
    ShowRunsItems(frags, undo);
  }

  /** Replacing one of the shown runs leaves only that one to be shown. */
  lemma ShowReplaced(frags: seq<Fragment>, i: nat, g: Fragment, undo: seq<UndoEntry>)
    requires i < |frags| && RunsShown(frags, undo)
    ensures ShowRuns(frags[i := g], undo) == frags[i := Showing(g, undo)]
  {
  }

  lemma ShowAppended(frags: seq<Fragment>, g: Fragment, undo: seq<UndoEntry>)
    requires RunsShown(frags, undo)
    ensures ShowRuns(frags + [g], undo) == frags + [Showing(g, undo)]
  {
  }

  lemma ApplyKeepsClosed(u: set<Operation>, a: set<Operation>, o: Operation)
    requires Next(u, a, o)
    ensures Closed(u, a + {o})
  {
  }

  // ---- Shortcuts ---------------------------------------------------------

  /** Append a run whose link proves it belongs at the end. */
  method TryAppend(ghost u: set<Operation>, ghost a: set<Operation>, frags: seq<Fragment>, index: RunIndex, undo: seq<UndoEntry>, o: Operation)
    returns (ok: bool, r: seq<Fragment>, index': RunIndex)
    requires State(u, a, frags, index, undo) && Next(u, a, o) && o.Edit? && o.deletions == [] && |o.inserts| == 1
    ensures ok ==> State(u, a + {o}, r, index', undo)
  {
    var f := RunFragment(o.inserts[0]);
    if !index.valid || index.nextRun == 0 || !Usable(f.origin) || !AppendsAtEnd(frags, f) { return false, frags, index; }
    var visible := ComputeVisible(f, undo);
    f := f.(visible := visible);
    ok, index' := AppendRow(frags, index, f);
    if !ok { return false, frags, index; }
    r := frags + [f];
    AppendIsApplied(u, a, frags, undo, o);
    ApplyKeepsClosed(u, a, o);
    StillUnspent(a, o, index, r, undo, 1, index');
  }

  lemma AppendIsApplied(u: set<Operation>, a: set<Operation>, frags: seq<Fragment>, undo: seq<UndoEntry>, o: Operation)
    requires Next(u, a, o) && o.Edit? && o.deletions == [] && |o.inserts| == 1
    requires NonEmptyRuns(frags) && Represents(a, Items(frags), undo) && AppendsAtEnd(frags, RunFragment(o.inserts[0]))
    ensures NonEmptyRuns(frags + [Showing(RunFragment(o.inserts[0]), undo)])
    ensures Represents(a + {o}, Items(frags + [Showing(RunFragment(o.inserts[0]), undo)]), undo)
  {
    var f := RunFragment(o.inserts[0]);
    var staged := frags + [f];
    AppendIsPartly(u, a, frags, undo, o);
    StagedIsApplied(u, a, o, staged, undo);
    ShownRuns(frags, undo);
    ShowAppended(frags, f, undo);
  }

  lemma AppendIsPartly(u: set<Operation>, a: set<Operation>, frags: seq<Fragment>, undo: seq<UndoEntry>, o: Operation)
    requires Next(u, a, o) && o.Edit? && o.deletions == [] && |o.inserts| == 1
    requires NonEmptyRuns(frags) && Represents(a, Items(frags), undo) && AppendsAtEnd(frags, RunFragment(o.inserts[0]))
    ensures Partly(a, o, 1, Items(frags + [RunFragment(o.inserts[0])])) && NonEmptyRuns(frags + [RunFragment(o.inserts[0])])
  {
    var f := RunFragment(o.inserts[0]);
    NothingMarked(Items(frags), o.timestamp);
    MarkedIsPartly(u, a, o, Items(frags), undo);
    RunCanGo(u, a, o, 0, Items(frags));
    AppendedIsSpliced(frags, f);
    SplicedIsPartly(u, a, o, 0, Items(frags), |Items(frags)|);
  }

  /** Appending is integrating at the end. */
  lemma AppendedIsSpliced(frags: seq<Fragment>, f: Fragment)
    requires NonEmptyRuns(frags) && Valid(DocOf(frags)) && Length(f) > 0 && NamesOlder(f) && FreshRun(frags, f)
    requires AppendsAtEnd(frags, f)
    ensures NonEmptyRuns(frags + [f]) && Items(frags + [f]) == Splice(Items(frags), |Items(frags)|, ItemsOf(f))
    ensures Valid(DocOf(frags + [f]))
  {
    RunIsChain(f);
    assert !Has(DocOf(frags), NodesOf(ItemsOf(f))[0].id);
    AppendBelongs(frags, f);
    InsertBetween(frags, |frags|, f);
    StartEnds(frags);
    assert frags[..|frags|] + [f] + frags[|frags|..] == frags + [f];
    SplicedValid(frags, frags + [f], |DocOf(frags)|, f);
  }

  lemma NothingMarked(items: seq<Item>, d: Identity)
    ensures Marked(items, [], d) == items
  {
    MarkInNone(items, HitIds(NodesOf(items), []), d);
  }

  /** Delete one whole run of text in place. */
  method TryDeleteRun(ghost u: set<Operation>, ghost a: set<Operation>, frags: seq<Fragment>, index: RunIndex, undo: seq<UndoEntry>, o: Operation)
    returns (ok: bool, r: seq<Fragment>, index': RunIndex)
    requires State(u, a, frags, index, undo) && Next(u, a, o)
    requires o.Edit? && o.inserts == [] && |o.deletions| == 1 && !o.markerEdit && index.valid
    ensures ok ==> State(u, a + {o}, r, index', undo)
  {
    hide Represents, Closed, Honest, Coherent, Items, NonEmptyRuns;
    var rank;
    ok, rank, r, index' := DeleteRun(frags, index, undo, o.deletions[0], o.timestamp);
    if ok {
      DeleteIsApplied(u, a, frags, undo, o, rank);
      ApplyKeepsClosed(u, a, o);
      StillUnspent(a, o, index, r, undo, 0, index');
    }
  }

  method DeleteRun(frags: seq<Fragment>, index: RunIndex, undo: seq<UndoEntry>, run: DeletionRun, d: Identity)
    returns (ok: bool, rank: nat, r: seq<Fragment>, index': RunIndex)
    requires index.valid && Coherent(frags, index)
    ensures ok ==> rank < |frags| && frags[rank].origin == run.first && Length(frags[rank]) == run.count
                   && r == frags[rank := Showing(AddDeletion(frags[rank], d), undo)] && index'.valid && Coherent(r, index')
                   && index'.nextRun == index.nextRun
  {
    var found := WholeRun(frags, index, run);
    if found.None? { return false, 0, frags, index; }
    rank := found.value;
    ok, index' := LabelRun(frags, index, rank, d);
    if !ok { return false, 0, frags, index; }
    var g := AddDeletion(frags[rank], d);
    var visible := ComputeVisible(g, undo);
    r := frags[rank := g.(visible := visible)];
    SameRowsCoherent(frags[rank := g], r, index');
  }

  /** The text run that is exactly the deletion run, if there is one. */
  method WholeRun(frags: seq<Fragment>, index: RunIndex, run: DeletionRun) returns (rank: Option<nat>)
    ensures rank.Some? ==> rank.value < |frags| && frags[rank.value].origin == run.first
                           && Length(frags[rank.value]) == run.count && !frags[rank.value].marker
  {
    var start := Predecessor(index.origins, run.first);
    if start.None? || run.count == 0 || index.origins[start.value].end != run.first.counter + run.count { return None; }
    rank := RetainedRank(frags, index, index.origins[start.value].run);
    if rank.None? { return None; }
    var f := frags[rank.value];
    if f.origin != run.first || Length(f) != run.count || f.marker { return None; }
  }

  /** Visibility is no business of the indexes. */
  lemma SameRowsCoherent(frags: seq<Fragment>, r: seq<Fragment>, index: RunIndex)
    requires Coherent(frags, index) && |r| == |frags|
    requires forall i :: 0 <= i < |frags| ==> r[i].(visible := frags[i].visible) == frags[i]
    ensures Coherent(r, index)
  {
    assert forall i :: 0 <= i < |frags| ==>
        r[i].origin == frags[i].origin && Length(r[i]) == Length(frags[i]) && r[i].deletions == frags[i].deletions;
    assert RunsOf(r, index.origins) == RunsOf(frags, index.origins);
    SameExtents(frags, r);
    SameStarts(frags, r, index.origins);
    SameLabels(frags, r, RunsOf(frags, index.origins), index.deletions);
  }

  lemma SameLabels(frags: seq<Fragment>, r: seq<Fragment>, runs: seq<RunId>, deletions: Deletions)
    requires |r| == |frags| == |runs| && DeletionsMatch(frags, runs, deletions)
    requires forall i :: 0 <= i < |frags| ==>
               r[i].origin == frags[i].origin && Length(r[i]) == Length(frags[i]) && r[i].deletions == frags[i].deletions
    ensures DeletionsMatch(r, runs, deletions)
  {
    forall k | k in deletions
      ensures Labels(r, k)
    {
      assert Labels(frags, k);
      var i :| 0 <= i < |frags| && frags[i].origin == k.start && k.deletion in frags[i].deletions;
      assert r[i].origin == k.start;
    }
  }

  lemma DeleteIsApplied(u: set<Operation>, a: set<Operation>, frags: seq<Fragment>, undo: seq<UndoEntry>, o: Operation, rank: nat)
    requires Next(u, a, o) && o.Edit? && o.inserts == [] && |o.deletions| == 1
    requires NonEmptyRuns(frags) && Represents(a, Items(frags), undo) && rank < |frags|
    requires frags[rank].origin == o.deletions[0].first && Length(frags[rank]) == o.deletions[0].count
    ensures NonEmptyRuns(frags[rank := Showing(AddDeletion(frags[rank], o.timestamp), undo)])
    ensures Represents(a + {o}, Items(frags[rank := Showing(AddDeletion(frags[rank], o.timestamp), undo)]), undo)
  {
    var g := AddDeletion(frags[rank], o.timestamp);
    DeletedIsMarked(frags, rank, o.deletions, o.timestamp);
    MarkedIsPartly(u, a, o, Items(frags), undo);
    StagedIsApplied(u, a, o, frags[rank := g], undo);
    ShownRuns(frags, undo);
    ShowReplaced(frags, rank, g, undo);
  }

  /** Marking the one run a deletion names exactly is marking what it reaches. */
  lemma DeletedIsMarked(frags: seq<Fragment>, rank: nat, runs: seq<DeletionRun>, d: Identity)
    requires Distinct(DocOf(frags)) && rank < |frags| && |runs| == 1
    requires frags[rank].origin == runs[0].first && Length(frags[rank]) == runs[0].count
    ensures Items(frags[rank := AddDeletion(frags[rank], d)]) == Marked(Items(frags), runs, d)
  {
    var f := frags[rank];
    assert frags[rank := AddDeletion(f, d)] == frags[..rank] + [AddDeletion(f, d)] + frags[rank + 1..];
    MarkWhole(frags, rank, d);
    WholeIsHit(frags, rank, runs[0]);
    assert runs == [runs[0]];
    MarkInSame(Items(frags), Span(f.origin.actor, f.origin.counter, End(f)), HitIds(DocOf(frags), runs), d);
  }

  lemma WholeIsHit(frags: seq<Fragment>, rank: nat, run: DeletionRun)
    requires rank < |frags| && frags[rank].origin == run.first && Length(frags[rank]) == run.count
    ensures SameOn(Items(frags), Span(run.first.actor, run.first.counter, End(frags[rank])), HitIds(DocOf(frags), [run]))
  {
    var doc, end := DocOf(frags), End(frags[rank]);
    forall c | run.first.counter <= c < end
      ensures Has(doc, Identity(run.first.actor, c))
    {
      ContainsHas(frags, rank, Identity(run.first.actor, c));
    }
    SpanIsHit(doc, run, end);
    assert forall i :: 0 <= i < |doc| ==> Items(frags)[i].node == doc[i];
  }
}
