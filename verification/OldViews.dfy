/** The text a walk over the current document attributes to an earlier version is
    the text a replica at that version showed: leaving out what the version has
    not observed leaves that replica's document. */
module OldViews {
  import opened Ids
  import opened VersionVectors
  import opened FugueOrder
  import opened FugueLaws
  import opened Fragments
  import opened Histories
  import opened Representation
  import opened Visibility
  import opened VisibleText
  import opened EditsSince

  // ---- Leaving out later items -------------------------------------------

  function KeepDoc(doc: Doc, since: Version): Doc {
    if doc == [] then []
    else KeepDoc(doc[..|doc| - 1], since) + if Observed(since, doc[|doc| - 1].id) then [doc[|doc| - 1]] else []
  }

  function KeepItems(items: seq<Item>, since: Version): seq<Item> {
    if items == [] then []
    else KeepItems(items[..|items| - 1], since) + if Observed(since, items[|items| - 1].node.id) then [items[|items| - 1]] else []
  }

  lemma {:induction false} KeptNodes(items: seq<Item>, since: Version)
    ensures NodesOf(KeepItems(items, since)) == KeepDoc(NodesOf(items), since)
  {
    if items != [] {
      var init := items[..|items| - 1];
      KeptNodes(init, since);
      assert NodesOf(items)[..|items| - 1] == NodesOf(init);
    }
  }

  lemma {:induction false} KeepConcat(x: Doc, y: Doc, since: Version)
    ensures KeepDoc(x + y, since) == KeepDoc(x, since) + KeepDoc(y, since)
    decreases |y|
  {
    if y == [] {
      assert x + y == x;
    } else {
      KeepConcat(x, y[..|y| - 1], since);
      assert (x + y)[..|x + y| - 1] == x + y[..|y| - 1];
    }
  }

  lemma {:induction false} KeptAre(doc: Doc, since: Version)
    ensures forall n :: n in KeepDoc(doc, since) <==> n in doc && Observed(since, n.id)
  {
    if doc != [] {
      KeptAre(doc[..|doc| - 1], since);
      assert doc == doc[..|doc| - 1] + [doc[|doc| - 1]];
    }
  }

  lemma {:induction false} KeepAll(doc: Doc, since: Version)
    requires forall i :: 0 <= i < |doc| ==> Observed(since, doc[i].id)
    ensures KeepDoc(doc, since) == doc
  {
    if doc != [] { KeepAll(doc[..|doc| - 1], since); }
  }

  /** Observed items name observed items only. */
  ghost predicate LinksObserved(doc: Doc, since: Version) {
    forall n :: n in doc && Observed(since, n.id) ==>
      && (n.link.parent.Some? ==> Observed(since, n.link.parent.value))
      && (n.link.rightOrigin.Some? ==> Observed(since, n.link.rightOrigin.value))
  }

  /** The latest of the items the version has not observed. */
  lemma {:induction false} LatestUnobserved(doc: Doc, since: Version, k: nat) returns (m: nat)
    requires k < |doc| && !Observed(since, doc[k].id)
    ensures m < |doc| && !Observed(since, doc[m].id)
    ensures forall i :: 0 <= i < |doc| && !Observed(since, doc[i].id) ==> doc[i].id.counter <= doc[m].id.counter
  {
    m := k;
    for j := 0 to |doc|
      invariant m < |doc| && !Observed(since, doc[m].id)
      invariant forall i :: 0 <= i < j && !Observed(since, doc[i].id) ==> doc[i].id.counter <= doc[m].id.counter
    {
      if !Observed(since, doc[j].id) && doc[m].id.counter < doc[j].id.counter { m := j; }
    }
  }

  /** Leaving out everything a version has not observed leaves a valid document. */
  lemma {:induction false} KeepValid(doc: Doc, since: Version)
    requires Valid(doc) && LinksObserved(doc, since)
    ensures Valid(KeepDoc(doc, since))
    decreases |doc|
  {
    if k: nat :| k < |doc| && !Observed(since, doc[k].id) {
      var m := LatestUnobserved(doc, since, k);
      forall i | 0 <= i < |doc|
        ensures doc[i].link.parent != Some(doc[m].id) && doc[i].link.rightOrigin != Some(doc[m].id)
      {
        assert LinkFits(doc, doc[i]) && doc[i] in doc;
      }
      RemoveUnnamed(doc, m);
      LeftOutSame(doc, m, since);
      KeepValid(RemoveAt(doc, m), since);
    } else {
      KeepAll(doc, since);
    }
  }

  lemma {:induction false} LeftOutSame(doc: Doc, m: nat, since: Version)
    requires m < |doc| && !Observed(since, doc[m].id)
    ensures KeepDoc(RemoveAt(doc, m), since) == KeepDoc(doc, since)
    ensures LinksObserved(doc, since) ==> LinksObserved(RemoveAt(doc, m), since)
  {
    assert doc == doc[..m] + [doc[m]] + doc[m + 1..];
    KeepConcat(doc[..m] + [doc[m]], doc[m + 1..], since);
    KeepConcat(doc[..m], [doc[m]], since);
    KeepConcat(doc[..m], doc[m + 1..], since);
    assert [doc[m]][..0] == [];
    assert forall n :: n in RemoveAt(doc, m) ==> n in doc;
  }

  // ---- What an earlier replica had ---------------------------------------

  /** `since` is where a replica that had applied `b` was. */
  ghost predicate Earlier(u: set<Operation>, a: set<Operation>, b: set<Operation>, since: Version) {
    Honest(u) && Closed(u, a) && Closed(u, b) && b <= a && IsFrontier(b, since)
  }

  /** The version has observed exactly the items of the operations it covers. */
  lemma {:induction false} ItemObserved(u: set<Operation>, b: set<Operation>, since: Version, p: Operation, id: Identity)
    requires Honest(u) && Closed(u, b) && IsFrontier(b, since) && p in u && InsertsId(p, id)
    ensures Observed(since, id) <==> p in b
  {
    ItemInInterval(u, p, id);
    VersionIsExact(u, b, since, p);
    assert FirstCounter(p) > 0 && WellMinted(p, FirstCounter(p));
    if Observed(since, id) {
      var q :| q in b && q.timestamp == Identity(id.actor, since[id.actor]);
      assert WellMinted(q, FirstCounter(q));
      assert p == q || Histories.Precedes(p, q) || Histories.Precedes(q, p);
    }
  }

  lemma {:induction false} ItemSupplied(u: set<Operation>, a: set<Operation>, items: seq<Item>, i: nat) returns (p: Operation)
    requires Honest(u) && a <= u && Contents(items) == Supplied(a) && i < |items|
    ensures p in a && InsertsId(p, items[i].node.id) && Content(items[i].node, items[i].content) in Supply(p)
  {
    var c := Content(items[i].node, items[i].content);
    assert c in Contents(items);
    p :| p in a && c in Supply(p);
    SupplyIsMinted(p, c);
  }

  lemma {:induction false} InSupplied(b: set<Operation>, p: Operation, c: Content)
    requires p in b && c in Supply(p)
    ensures c in Supplied(b)
  {
  }

  lemma {:induction false} ObservedIsEarlier(u: set<Operation>, a: set<Operation>, b: set<Operation>, since: Version,
                                             items: seq<Item>, was: seq<Item>)
    requires Earlier(u, a, b, since) && Contents(items) == Supplied(a) && Contents(was) == Supplied(b)
    ensures forall n :: n in NodesOf(items) && Observed(since, n.id) <==> n in NodesOf(was)
  {
    forall n | n in NodesOf(items) && Observed(since, n.id)
      ensures n in NodesOf(was)
    {
      var i :| 0 <= i < |items| && NodesOf(items)[i] == n;
      var p := ItemSupplied(u, a, items, i);
      ItemObserved(u, b, since, p, n.id);
      InSupplied(b, p, Content(items[i].node, items[i].content));
      assert Content(items[i].node, items[i].content) in Contents(was);
      var j :| 0 <= j < |was| && Content(was[j].node, was[j].content) == Content(items[i].node, items[i].content);
      assert NodesOf(was)[j] == n;
    }
    forall n | n in NodesOf(was)
      ensures n in NodesOf(items) && Observed(since, n.id)
    {
      var j :| 0 <= j < |was| && NodesOf(was)[j] == n;
      var p := ItemSupplied(u, b, was, j);
      ItemObserved(u, b, since, p, n.id);
      InSupplied(a, p, Content(was[j].node, was[j].content));
      assert Content(was[j].node, was[j].content) in Contents(items);
      var i :| 0 <= i < |items| && Content(items[i].node, items[i].content) == Content(was[j].node, was[j].content);
      assert NodesOf(items)[i] == n;
    }
  }

  lemma {:induction false} EarlierLinks(items: seq<Item>, was: seq<Item>, since: Version)
    requires Linked(NodesOf(was))
    requires forall n :: n in NodesOf(items) && Observed(since, n.id) <==> n in NodesOf(was)
    ensures LinksObserved(NodesOf(items), since)
  {
    var doc := NodesOf(was);
    forall n | n in NodesOf(items) && Observed(since, n.id)
      ensures n.link.parent.Some? ==> Observed(since, n.link.parent.value)
      ensures n.link.rightOrigin.Some? ==> Observed(since, n.link.rightOrigin.value)
    {
      var j :| 0 <= j < |doc| && doc[j] == n;
      assert LinkFits(doc, n);
      if n.link.parent.Some? { assert doc[Index(doc, n.link.parent.value)] in doc; }
      if n.link.rightOrigin.Some? { assert doc[Index(doc, n.link.rightOrigin.value)] in doc; }
    }
  }

  /** The kept items are, node by node, the earlier document. */
  lemma {:induction false} KeptIsEarlier(u: set<Operation>, a: set<Operation>, b: set<Operation>, since: Version,
                                         items: seq<Item>, undo: seq<UndoEntry>, was: seq<Item>, undoB: seq<UndoEntry>)
    requires Earlier(u, a, b, since) && Represents(a, items, undo) && Represents(b, was, undoB)
    ensures NodesOf(KeepItems(items, since)) == NodesOf(was)
  {
    var doc := NodesOf(items);
    ObservedIsEarlier(u, a, b, since, items, was);
    EarlierLinks(items, was, since);
    KeepValid(doc, since);
    KeptNodes(items, since);
    KeptAre(doc, since);
    hide *;
    SameMembers(KeepDoc(doc, since), NodesOf(was));
    RepresentsValid(b, was, undoB);
    SameNodesSameOrder(KeepDoc(doc, since), NodesOf(was));
  }

  lemma {:induction false} RepresentsValid(b: set<Operation>, was: seq<Item>, undoB: seq<UndoEntry>)
    requires Represents(b, was, undoB)
    ensures Valid(NodesOf(was))
  {
  }

  lemma {:induction false} SameMembers(x: Doc, y: Doc)
    requires forall n :: n in x <==> n in y
    ensures Nodes(x) == Nodes(y)
  {
    forall n
      ensures n in Nodes(x) <==> n in x
      ensures n in Nodes(y) <==> n in y
    {
    }
  }

  // ---- Its visible text --------------------------------------------------

  function WasShown(x: Item, since: Version, undo: seq<UndoEntry>): bool {
    WasVisible(x.node.id, x.dels, since, undo)
  }

  function OldTextOf(items: seq<Item>, since: Version, undo: seq<UndoEntry>): seq<Scalar> {
    if items == [] then []
    else
      var last := items[|items| - 1];
      OldTextOf(items[..|items| - 1], since, undo)
      + if last.content.Some? && WasShown(last, since, undo) then [last.content.value] else []
  }

  lemma {:induction false} OldTextConcat(x: seq<Item>, y: seq<Item>, since: Version, undo: seq<UndoEntry>)
    ensures OldTextOf(x + y, since, undo) == OldTextOf(x, since, undo) + OldTextOf(y, since, undo)
    decreases |y|
  {
    hide WasShown;
    if y == [] {
      assert x + y == x;
    } else {
      OldTextConcat(x, y[..|y| - 1], since, undo);
      assert (x + y)[..|x + y| - 1] == x + y[..|y| - 1];
    }
  }

  /** All items of a run were shown or hidden together. */
  ghost predicate WasUniform(f: Fragment, since: Version, undo: seq<UndoEntry>) {
    forall k :: 0 <= k < Length(f) ==>
      WasVisible(ItemAt(f, k), DeletionSet(f), since, undo) == WasVisible(f.origin, DeletionSet(f), since, undo)
  }

  lemma {:induction false} OldTextOfRun(f: Fragment, since: Version, undo: seq<UndoEntry>, k: nat)
    requires WasUniform(f, since, undo) && k <= Length(f)
    ensures OldTextOf(ItemsOf(f)[..k], since, undo)
            == if WasVisible(f.origin, DeletionSet(f), since, undo) && !f.marker then f.text[..k] else []
  {
    hide WasVisible;
    if k == 0 {
      assert ItemsOf(f)[..k] == [];
    } else {
      OldTextOfRun(f, since, undo, k - 1);
      var part := ItemsOf(f)[..k];
      assert part[..k - 1] == ItemsOf(f)[..k - 1] && part[k - 1] == ItemOf(f, k - 1);
      if !f.marker { assert f.text[..k] == f.text[..k - 1] + [f.text[k - 1]]; }
    }
  }

  /** By runs is by items. */
  lemma {:induction false} OldTextByItems(frags: seq<Fragment>, since: Version, undo: seq<UndoEntry>)
    requires forall f :: f in frags ==> WasUniform(f, since, undo)
    ensures OldText(frags, since, undo) == OldTextOf(Items(frags), since, undo)
  {
    hide WasUniform, WasVisible;
    if frags != [] {
      var init, last := frags[..|frags| - 1], frags[|frags| - 1];
      OldTextByItems(init, since, undo);
      OldTextConcat(Items(init), ItemsOf(last), since, undo);
      OldTextOfRun(last, since, undo, Length(last));
      assert ItemsOf(last)[..Length(last)] == ItemsOf(last);
    }
  }

  /** Items not observed were not shown. */
  lemma {:induction false} OldTextKept(items: seq<Item>, since: Version, undo: seq<UndoEntry>)
    ensures OldTextOf(KeepItems(items, since), since, undo) == OldTextOf(items, since, undo)
  {
    if items != [] {
      var init, last := items[..|items| - 1], items[|items| - 1];
      OldTextKept(init, since, undo);
      var kept := KeepItems(init, since);
      assert (kept + [last])[..|kept|] == kept;
      assert KeepItems(items, since) == if Observed(since, last.node.id) then kept + [last] else kept;
    }
  }

  /** Item by item the same scalars shown: the same text. */
  lemma {:induction false} SameShown(kept: seq<Item>, was: seq<Item>, since: Version, undo: seq<UndoEntry>)
    requires |kept| == |was|
    requires forall i :: 0 <= i < |was| ==> kept[i].content == was[i].content && WasShown(kept[i], since, undo) == was[i].visible
    ensures OldTextOf(kept, since, undo) == Text(was)
  {
    hide WasShown;
    if kept != [] { SameShown(kept[..|kept| - 1], was[..|was| - 1], since, undo); }
  }

  /** Undo counts at a version are the counts the earlier replica had. */
  lemma {:induction false} CountsAtVersion(u: set<Operation>, a: set<Operation>, b: set<Operation>, since: Version,
                                           undo: seq<UndoEntry>, undoB: seq<UndoEntry>, id: Identity)
    requires Earlier(u, a, b, since) && UndoTold(a, undo) && UndoTold(b, undoB)
    ensures Undone(EntriesAt(undo, since), id) == Undone(undoB, id)
  {
    forall e
      ensures e in EntriesAt(undo, since) <==> e in undoB
    {
      EntryAtVersion(u, a, b, since, undo, undoB, e);
    }
    SameEntriesSameCount(EntriesAt(undo, since), id, undoB, id);
  }

  lemma {:induction false} EntryAtVersion(u: set<Operation>, a: set<Operation>, b: set<Operation>, since: Version,
                                          undo: seq<UndoEntry>, undoB: seq<UndoEntry>, e: UndoEntry)
    requires Earlier(u, a, b, since) && UndoTold(a, undo) && UndoTold(b, undoB)
    ensures e in EntriesAt(undo, since) <==> e in undoB
  {
    assert e in undoB <==> Recorded(b, e);
    assert e in undo <==> Recorded(a, e);
    if Recorded(a, e) {
      var p :| p in a && p.Undo? && p.timestamp == e.undo && UndoCount(e.target, e.count) in p.counts;
      VersionIsExact(u, b, since, p);
    }
    if Recorded(b, e) {
      var p :| p in b && p.Undo? && p.timestamp == e.undo && UndoCount(e.target, e.count) in p.counts;
      VersionIsExact(u, b, since, p);
      assert p in a;
    }
  }

  lemma {:induction false} DeletionAtVersion(u: set<Operation>, a: set<Operation>, b: set<Operation>, since: Version, id: Identity, d: Identity)
    requires Earlier(u, a, b, since)
    ensures DeletedBy(b, id, d) <==> DeletedBy(a, id, d) && Observed(since, d)
  {
    if DeletedBy(a, id, d) {
      var p :| p in a && p.timestamp == d && Deletes(p, id);
      VersionIsExact(u, b, since, p);
    }
    if DeletedBy(b, id, d) {
      var p :| p in b && p.timestamp == d && Deletes(p, id);
      VersionIsExact(u, b, since, p);
      assert p in a;
    }
  }

  /** A kept item shows at the version what the earlier replica's item shows. */
  lemma {:induction false} ShownAtVersion(u: set<Operation>, a: set<Operation>, b: set<Operation>, since: Version,
                                          undo: seq<UndoEntry>, undoB: seq<UndoEntry>, x: Item, y: Item)
    requires Earlier(u, a, b, since) && UndoTold(a, undo) && UndoTold(b, undoB)
    requires x.node.id == y.node.id && Observed(since, x.node.id)
    requires forall d :: d in x.dels <==> DeletedBy(a, x.node.id, d)
    requires forall d :: d in y.dels <==> DeletedBy(b, y.node.id, d)
    requires y.visible == ItemVisible(undoB, y.node.id, y.dels)
    ensures WasShown(x, since, undo) == y.visible
  {
    CountsAtVersion(u, a, b, since, undo, undoB, x.node.id);
    forall d
      ensures d in y.dels <==> d in x.dels && Observed(since, d)
      ensures Undone(EntriesAt(undo, since), d) == Undone(undoB, d)
    {
      DeletionAtVersion(u, a, b, since, x.node.id, d);
      CountsAtVersion(u, a, b, since, undo, undoB, d);
    }
  }

  lemma {:induction false} OneOperationObserved(u: set<Operation>, b: set<Operation>, since: Version, o: Operation, x: Identity, y: Identity)
    requires Honest(u) && Closed(u, b) && IsFrontier(b, since) && o in u && InsertsId(o, x) && InsertsId(o, y)
    ensures Observed(since, x) <==> Observed(since, y)
  {
    ItemObserved(u, b, since, o, x);
    ItemObserved(u, b, since, o, y);
  }

  lemma {:induction false} OneOperationUndone(u: set<Operation>, a: set<Operation>, undo: seq<UndoEntry>, since: Version, o: Operation,
                                              x: Identity, y: Identity)
    requires Honest(u) && a <= u && UndoTold(a, undo) && o in u && InsertsId(o, x) && InsertsId(o, y)
    ensures Undone(EntriesAt(undo, since), x) == Undone(EntriesAt(undo, since), y)
  {
    var some := EntriesAt(undo, since);
    forall i, c
      ensures UndoEntry(x, i, c) in some <==> UndoEntry(y, i, c) in some
    {
      SameOperationSameEntry(u, a, undo, o, x, y, i, c);
      SameOperationSameEntry(u, a, undo, o, y, x, i, c);
      assert UndoEntry(x, i, c).undo == UndoEntry(y, i, c).undo == i;
    }
    SameEntriesSameCount(some, x, some, y);
  }

  lemma {:induction false} RunsWereUniform(u: set<Operation>, a: set<Operation>, b: set<Operation>, since: Version, frags: seq<Fragment>, undo: seq<UndoEntry>)
    requires Earlier(u, a, b, since) && Contents(Items(frags)) <= Supplied(a) && UndoTold(a, undo)
    ensures forall f :: f in frags ==> WasUniform(f, since, undo)
  {
    ContentsAreSupplied(a, frags);
    forall f, k | f in frags && 0 <= k < Length(f)
      ensures WasVisible(ItemAt(f, k), DeletionSet(f), since, undo) == WasVisible(f.origin, DeletionSet(f), since, undo)
    {
      var i :| 0 <= i < |frags| && frags[i] == f;
      var o := RunHasOneOperation(u, a, f, k);
      OneOperationObserved(u, b, since, o, ItemAt(f, k), f.origin);
      OneOperationUndone(u, a, undo, since, o, ItemAt(f, k), f.origin);
    }
  }

  lemma {:induction false} KeptItem(items: seq<Item>, since: Version, i: nat) returns (j: nat)
    requires i < |KeepItems(items, since)|
    ensures j < |items| && KeepItems(items, since)[i] == items[j] && Observed(since, items[j].node.id)
  {
    var init := items[..|items| - 1];
    if i < |KeepItems(init, since)| {
      j := KeptItem(init, since, i);
    } else {
      j := |items| - 1;
    }
  }

  /** What the walk takes for the earlier text is the text the earlier replica
      showed. */
  lemma {:induction false} OldTextIsText(u: set<Operation>, a: set<Operation>, b: set<Operation>, since: Version,
                                         frags: seq<Fragment>, undo: seq<UndoEntry>, was: seq<Item>, undoB: seq<UndoEntry>)
    requires Earlier(u, a, b, since) && Represents(a, Items(frags), undo) && Represents(b, was, undoB)
    ensures OldText(frags, since, undo) == Text(was)
  {
    var items := Items(frags);
    var kept := KeepItems(items, since);
    RunsWereUniform(u, a, b, since, frags, undo);
    OldTextByItems(frags, since, undo);
    OldTextKept(items, since, undo);
    KeptIsEarlier(u, a, b, since, items, undo, was, undoB);
    hide OldTextOf, OldText, WasShown, WasUniform, KeepItems, Text, Items;
    assert |kept| == |NodesOf(kept)| == |was|;
    forall i | 0 <= i < |was|
      ensures kept[i].content == was[i].content && WasShown(kept[i], since, undo) == was[i].visible
    {
      SameItem(u, a, b, since, items, undo, was, undoB, i);
    }
    SameShown(kept, was, since, undo);
  }

  lemma {:induction false} SameItem(u: set<Operation>, a: set<Operation>, b: set<Operation>, since: Version,
                                    items: seq<Item>, undo: seq<UndoEntry>, was: seq<Item>, undoB: seq<UndoEntry>, i: nat)
    requires Earlier(u, a, b, since) && Represents(a, items, undo) && Represents(b, was, undoB)
    requires NodesOf(KeepItems(items, since)) == NodesOf(was) && i < |was|
    ensures i < |KeepItems(items, since)| == |was|
    ensures KeepItems(items, since)[i].content == was[i].content && WasShown(KeepItems(items, since)[i], since, undo) == was[i].visible
  {
    var kept := KeepItems(items, since);
    assert |kept| == |NodesOf(kept)| == |was|;
    assert NodesOf(kept)[i] == NodesOf(was)[i];
    var j := KeptItem(items, since, i);
    ShownAtVersion(u, a, b, since, undo, undoB, kept[i], was[i]);
    var p := ItemSupplied(u, a, items, j);
    var q := ItemSupplied(u, b, was, i);
    InSupplied(a, p, Content(items[j].node, items[j].content));
    InSupplied(a, q, Content(was[i].node, was[i].content));
    hide WasShown, Supplied, Represents;
    ContentIsUnique(u, a, Content(items[j].node, items[j].content), Content(was[i].node, was[i].content));
  }

  /** An old view is brought up to date: the edits since the version a replica was
      at, applied right to left to the text it showed, give the text shown now. */
  method UpdateView(ghost u: set<Operation>, ghost a: set<Operation>, frags: seq<Fragment>, undo: seq<UndoEntry>,
                    ghost b: set<Operation>, since: Version, ghost was: seq<Item>, ghost undoB: seq<UndoEntry>, view: seq<Scalar>)
    returns (text: seq<Scalar>)
    requires Earlier(u, a, b, since) && Represents(a, Items(frags), undo) && Represents(b, was, undoB)
    requires view == Text(was)
    ensures text == Text(Items(frags))
  {
    OldTextIsText(u, a, b, since, frags, undo, was, undoB);
    hide Earlier, Represents, OldText, Text, Items;
    var edits, _ := ListEdits(frags, since, undo);
    text := ApplyEdits(view, edits);
  }
}
