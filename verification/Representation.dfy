/** What a replica's document has to be, given the operations it has applied:
    exactly their items in link order, each with the deletions that name it,
    shown or hidden by the recorded undo counts.

    `Convergence` is what the definition is for: the set of applied operations
    alone decides the document. */
module Representation {
  import opened Ids
  import opened VersionVectors
  import opened FugueOrder
  import opened FugueLaws
  import opened Fragments
  import opened Histories
  import opened SequenceOrder
  import opened DeletionRuns

  // ---- Undo counts and visibility ----------------------------------------

  /** How often `undo` says `target` has been undone or redone. */
  datatype UndoEntry = UndoEntry(target: Identity, undo: Identity, count: nat)

  /** The current count of a target is the largest recorded one. */
  function MaxCount(undo: seq<UndoEntry>, t: Identity): nat {
    if undo == [] then 0
    else
      var last := undo[|undo| - 1];
      Max(MaxCount(undo[..|undo| - 1], t), if last.target == t then last.count else 0)
  }

  /** Odd counts are undone, even ones are not or no longer. */
  predicate Undone(undo: seq<UndoEntry>, t: Identity) {
    MaxCount(undo, t) % 2 == 1
  }

  predicate ItemVisible(undo: seq<UndoEntry>, id: Identity, dels: set<Identity>) {
    !Undone(undo, id) && forall d :: d in dels ==> Undone(undo, d)
  }

  lemma {:induction false} MaxCountIsMax(undo: seq<UndoEntry>, t: Identity)
    ensures forall e :: e in undo && e.target == t ==> e.count <= MaxCount(undo, t)
    ensures MaxCount(undo, t) > 0 ==> exists e :: e in undo && e.target == t && e.count == MaxCount(undo, t)
  {
    if undo != [] {
      var init, last := undo[..|undo| - 1], undo[|undo| - 1];
      MaxCountIsMax(init, t);
      assert forall e :: e in undo <==> e in init || e == last;
      assert last in undo;
    }
  }

  /** Counts depend on which entries there are, not on their order, and targets
      with the same entries have the same count. */
  lemma SameEntriesSameCount(a: seq<UndoEntry>, s: Identity, b: seq<UndoEntry>, t: Identity)
    requires forall i, c :: UndoEntry(s, i, c) in a <==> UndoEntry(t, i, c) in b
    ensures MaxCount(a, s) == MaxCount(b, t)
  {
    MaxCountIsMax(a, s);
    MaxCountIsMax(b, t);
    if MaxCount(a, s) > 0 {
      var e :| e in a && e.target == s && e.count == MaxCount(a, s);
      assert UndoEntry(s, e.undo, e.count) in a;
      assert UndoEntry(t, e.undo, e.count) in b;
    }
    if MaxCount(b, t) > 0 {
      var e :| e in b && e.target == t && e.count == MaxCount(b, t);
      assert UndoEntry(t, e.undo, e.count) in b;
      assert UndoEntry(s, e.undo, e.count) in a;
    }
  }

  // ---- What operations supply --------------------------------------------

  datatype Content = Content(node: Node, scalar: Option<Scalar>)

  ghost function Contents(items: seq<Item>): set<Content> {
    set i | 0 <= i < |items| :: Content(items[i].node, items[i].content)
  }

  /** The items of the first `n` runs an operation inserts. */
  ghost function SupplyOf(o: Operation, n: nat): set<Content>
    requires o.Edit? && n <= |o.inserts|
  {
    set k, c | 0 <= k < n && c in Contents(ItemsOf(RunFragment(o.inserts[k]))) :: c
  }

  ghost function Supply(o: Operation): set<Content> {
    if o.Edit? then SupplyOf(o, |o.inserts|) else {}
  }

  ghost function Supplied(a: set<Operation>): set<Content> {
    set o, c | o in a && c in Supply(o) :: c
  }

  ghost predicate DeletedBy(a: set<Operation>, id: Identity, d: Identity) {
    exists o :: o in a && o.timestamp == d && Deletes(o, id)
  }

  ghost predicate Recorded(a: set<Operation>, e: UndoEntry) {
    exists o :: o in a && o.Undo? && o.timestamp == e.undo && UndoCount(e.target, e.count) in o.counts
  }

  ghost predicate DeletionsTold(a: set<Operation>, items: seq<Item>) {
    forall i, d :: 0 <= i < |items| ==> (d in items[i].dels <==> DeletedBy(a, items[i].node.id, d))
  }

  ghost predicate UndoTold(a: set<Operation>, undo: seq<UndoEntry>) {
    forall e :: e in undo <==> Recorded(a, e)
  }

  ghost predicate Shown(items: seq<Item>, undo: seq<UndoEntry>) {
    forall i :: 0 <= i < |items| ==> items[i].visible == ItemVisible(undo, items[i].node.id, items[i].dels)
  }

  /** The document of the operations in `a`. */
  ghost predicate Represents(a: set<Operation>, items: seq<Item>, undo: seq<UndoEntry>) {
    && Valid(NodesOf(items))
    && Contents(items) == Supplied(a)
    && DeletionsTold(a, items)
    && UndoTold(a, undo)
    && Shown(items, undo)
  }

  // ---- Convergence -------------------------------------------------------

  lemma SupplyIsMinted(o: Operation, c: Content)
    requires c in Supply(o)
    ensures InsertsId(o, c.node.id)
    ensures exists k, j :: Inserts(o, k, j, c.node, c.scalar)
  {
    var k :| 0 <= k < |o.inserts| && c in Contents(ItemsOf(RunFragment(o.inserts[k])));
    var f := RunFragment(o.inserts[k]);
    var j :| 0 <= j < Length(f) && c == Content(ItemsOf(f)[j].node, ItemsOf(f)[j].content);
    assert RunHolds(o.inserts[k], c.node.id);
    assert Inserts(o, k, j, c.node, c.scalar);
  }

  lemma MintedIsSupplied(o: Operation, id: Identity) returns (c: Content)
    requires InsertsId(o, id)
    ensures c in Supply(o) && c.node.id == id
  {
    var k :| 0 <= k < |o.inserts| && RunHolds(o.inserts[k], id);
    var f := RunFragment(o.inserts[k]);
    var j := id.counter - f.origin.counter;
    c := Content(ItemsOf(f)[j].node, ItemsOf(f)[j].content);
    assert c in Contents(ItemsOf(f));
    assert c in SupplyOf(o, |o.inserts|);
  }

  /** One identity, one item. */
  lemma ContentIsUnique(u: set<Operation>, a: set<Operation>, c: Content, d: Content)
    requires Honest(u) && a <= u && c in Supplied(a) && d in Supplied(a) && c.node.id == d.node.id
    ensures c == d
  {
    var o :| o in a && c in Supply(o);
    var p :| p in a && d in Supply(p);
    SupplyIsMinted(o, c);
    SupplyIsMinted(p, d);
    ItemsAreUnique(u, o, p, c.node.id);
    assert WellMinted(o, FirstCounter(o));
    OneSupply(o, c, d);
  }

  lemma OneSupply(o: Operation, c: Content, d: Content)
    requires o.Edit? && forall j, k :: 0 <= j < k < |o.inserts| ==> RunsApart(o.inserts[j], o.inserts[k])
    requires c in Supply(o) && d in Supply(o) && c.node.id == d.node.id
    ensures c == d
  {
    SupplyIsMinted(o, c);
    SupplyIsMinted(o, d);
    var k: nat, j: nat :| Inserts(o, k, j, c.node, c.scalar);
    var m: nat, i: nat :| Inserts(o, m, i, d.node, d.scalar);
  }

  lemma ContentsNodes(items: seq<Item>)
    ensures Nodes(NodesOf(items)) == set c | c in Contents(items) :: c.node
  {
    var doc := NodesOf(items);
    forall n | n in Nodes(doc)
      ensures n in set c | c in Contents(items) :: c.node
    {
      var i :| 0 <= i < |doc| && doc[i] == n;
      assert Content(items[i].node, items[i].content) in Contents(items);
    }
    forall c | c in Contents(items)
      ensures c.node in Nodes(doc)
    {
      var i :| 0 <= i < |items| && c == Content(items[i].node, items[i].content);
      assert doc[i] == c.node;
    }
  }

  /** Replicas that have applied the same operations hold the same document, item
      by item: the same order, content, deletions and visibility. */
  lemma Convergence(u: set<Operation>, a: set<Operation>,
                    items1: seq<Item>, undo1: seq<UndoEntry>, items2: seq<Item>, undo2: seq<UndoEntry>)
    requires Honest(u) && a <= u
    requires Represents(a, items1, undo1) && Represents(a, items2, undo2)
    ensures items1 == items2
  {
    var doc1, doc2 := NodesOf(items1), NodesOf(items2);
    ContentsNodes(items1);
    ContentsNodes(items2);
    SameNodesSameOrder(doc1, doc2);
    forall i | 0 <= i < |items1|
      ensures items1[i] == items2[i]
    {
      var x, y := items1[i], items2[i];
      assert doc1[i] == x.node && doc2[i] == y.node;
      assert Content(x.node, x.content) in Contents(items1) && Content(y.node, y.content) in Contents(items2);
      ContentIsUnique(u, a, Content(x.node, x.content), Content(y.node, y.content));
      assert x.dels == y.dels;
      SameVisibility(a, undo1, undo2, x.node.id, x.dels);
    }
  }

  lemma SameVisibility(a: set<Operation>, undo1: seq<UndoEntry>, undo2: seq<UndoEntry>, id: Identity, dels: set<Identity>)
    requires UndoTold(a, undo1) && UndoTold(a, undo2)
    ensures ItemVisible(undo1, id, dels) == ItemVisible(undo2, id, dels)
  {
    SameEntriesSameCount(undo1, id, undo2, id);
    forall d | d in dels
      ensures Undone(undo1, d) == Undone(undo2, d)
    {
      SameEntriesSameCount(undo1, d, undo2, d);
    }
  }

  // ---- Applying an edit --------------------------------------------------

  /** `o` is an edit of the history not yet in `a`, and `a` has all it depends on. */
  ghost predicate Next(u: set<Operation>, a: set<Operation>, o: Operation) {
    && Honest(u) && Closed(u, a) && o in u && o !in a
    && forall p :: p in u && Observed(o.version, p.timestamp) ==> p in a
  }

  /** The first `k` runs of `o` are in, and its deletions are marked. */
  ghost predicate Partly(a: set<Operation>, o: Operation, k: nat, items: seq<Item>)
    requires o.Edit? && k <= |o.inserts|
  {
    && Valid(NodesOf(items))
    && Contents(items) == Supplied(a) + SupplyOf(o, k)
    && DeletionsTold(a + {o}, items)
  }

  lemma HasContent(items: seq<Item>, id: Identity)
    ensures Has(NodesOf(items), id) <==> exists c :: c in Contents(items) && c.node.id == id
  {
    var doc := NodesOf(items);
    if Has(doc, id) {
      var i :| 0 <= i < |doc| && doc[i].id == id;
      assert Content(items[i].node, items[i].content) in Contents(items);
    }
    if exists c :: c in Contents(items) && c.node.id == id {
      var c :| c in Contents(items) && c.node.id == id;
      var i :| 0 <= i < |items| && c == Content(items[i].node, items[i].content);
      assert doc[i].id == id;
    }
  }

  /** Whatever the operation's author knew is in the document. */
  lemma KnownIsThere(u: set<Operation>, a: set<Operation>, o: Operation, items: seq<Item>, id: Identity)
    requires Next(u, a, o) && Supplied(a) <= Contents(items) && Knows(u, o, id)
    ensures Has(NodesOf(items), id)
  {
    var p :| p in u && Observed(o.version, p.timestamp) && InsertsId(p, id);
    var c := MintedIsSupplied(p, id);
    assert c in Supplied(a);
    HasContent(items, id);
  }

  /** The scan of a deletion reaches every identity the operation deletes. */
  lemma HitIsDeleted(u: set<Operation>, a: set<Operation>, o: Operation, items: seq<Item>, id: Identity)
    requires Next(u, a, o) && o.Edit? && Supplied(a) <= Contents(items)
    ensures Hit(NodesOf(items), o.deletions, id) <==> Deletes(o, id)
  {
    var doc := NodesOf(items);
    if Deletes(o, id) {
      var k :| 0 <= k < |o.deletions| && InDeletion(o.deletions[k], id);
      var r := o.deletions[k];
      forall c | r.first.counter <= c < id.counter + 1
        ensures Has(doc, Identity(r.first.actor, c))
      {
        var x := Identity(r.first.actor, c);
        assert InDeletion(o.deletions[k], x);
        assert Deletes(o, x) && DeletionsKnown(u, o);
        KnownIsThere(u, a, o, items, x);
      }
      assert r in o.deletions && Reaches(doc, r, id);
    }
    if Hit(doc, o.deletions, id) {
      var r :| r in o.deletions && Reaches(doc, r, id);
      var k :| 0 <= k < |o.deletions| && o.deletions[k] == r;
    }
  }

  /** After marking, the deletions of `o` are told too. */
  lemma MarkedIsPartly(u: set<Operation>, a: set<Operation>, o: Operation, items: seq<Item>, undo: seq<UndoEntry>)
    requires Next(u, a, o) && o.Edit? && Represents(a, items, undo)
    ensures Partly(a, o, 0, Marked(items, o.deletions, o.timestamp))
  {
    var doc, marked := NodesOf(items), Marked(items, o.deletions, o.timestamp);
    MarkInNodes(items, HitIds(doc, o.deletions), o.timestamp);
    assert Contents(marked) == Contents(items) by {
      assert forall i :: 0 <= i < |items| ==> Content(marked[i].node, marked[i].content) == Content(items[i].node, items[i].content);
    }
    assert SupplyOf(o, 0) == {};
    forall i, d | 0 <= i < |marked|
      ensures d in marked[i].dels <==> DeletedBy(a + {o}, marked[i].node.id, d)
    {
      var id := items[i].node.id;
      HitIsDeleted(u, a, o, items, id);
      assert doc[i].id == id;
      assert id in HitIds(doc, o.deletions) <==> Hit(doc, o.deletions, id);
      assert d in items[i].dels <==> DeletedBy(a, id, d);
      DeletedByMore(a, o, id, d);
    }
  }

  lemma DeletedByMore(a: set<Operation>, o: Operation, id: Identity, d: Identity)
    ensures DeletedBy(a + {o}, id, d) <==> DeletedBy(a, id, d) || (o.timestamp == d && Deletes(o, id))
  {
    if DeletedBy(a, id, d) {
      var p :| p in a && p.timestamp == d && Deletes(p, id);
      assert p in a + {o};
    }
    if o.timestamp == d && Deletes(o, id) {
      assert o in a + {o};
    }
  }

  /** Nothing applied, nor the operation itself, deletes what it inserts. */
  lemma NewIsNotDeleted(u: set<Operation>, a: set<Operation>, o: Operation, id: Identity, d: Identity)
    requires Next(u, a, o) && InsertsId(o, id)
    ensures !DeletedBy(a + {o}, id, d)
  {
    assert WellMinted(o, FirstCounter(o));
    forall q | q in a + {o}
      ensures !Deletes(q, id)
    {
      assert DeletionsKnown(u, q);
      if Deletes(q, id) {
        var p :| p in u && Observed(q.version, p.timestamp) && InsertsId(p, id);
        ItemsAreUnique(u, p, o, id);
      }
    }
  }

  /** The next run of `o` can be integrated: what it names is there, its
      identities are not. */
  lemma RunCanGo(u: set<Operation>, a: set<Operation>, o: Operation, k: nat, items: seq<Item>)
    requires Next(u, a, o) && o.Edit? && k < |o.inserts| && Partly(a, o, k, items)
    ensures var f := RunFragment(o.inserts[k]);
            && Length(f) > 0 && NamesOlder(f) && Attaches(NodesOf(items), f.link)
            && Fresh(NodesOf(items), NodesOf(ItemsOf(f)))
  {
    var r := o.inserts[k];
    assert WellMinted(o, FirstCounter(o)) && LinksKnown(u, o);
    assert RunLength(r) > 0;
    RunAttaches(u, a, o, k, items);
    forall j | 0 <= j < RunLength(r)
      ensures !Has(NodesOf(items), NodesOf(ItemsOf(RunFragment(r)))[j].id)
    {
      RunIsNew(u, a, o, k, items, ItemAt(RunFragment(r), j));
    }
  }

  lemma RunAttaches(u: set<Operation>, a: set<Operation>, o: Operation, k: nat, items: seq<Item>)
    requires Next(u, a, o) && o.Edit? && k < |o.inserts| && Supplied(a) <= Contents(items)
    ensures NamesOlder(RunFragment(o.inserts[k])) && Attaches(NodesOf(items), o.inserts[k].link)
  {
    var r := o.inserts[k];
    assert WellMinted(o, FirstCounter(o)) && LinksKnown(u, o);
    if r.link.parent.Some? {
      KnownIsThere(u, a, o, items, r.link.parent.value);
      KnownIsOlder(u, o, r.link.parent.value);
    }
    if r.link.rightOrigin.Some? {
      KnownIsThere(u, a, o, items, r.link.rightOrigin.value);
      KnownIsOlder(u, o, r.link.rightOrigin.value);
    }
  }

  lemma RunIsNew(u: set<Operation>, a: set<Operation>, o: Operation, k: nat, items: seq<Item>, id: Identity)
    requires Next(u, a, o) && o.Edit? && k < |o.inserts| && Partly(a, o, k, items) && RunHolds(o.inserts[k], id)
    ensures !Has(NodesOf(items), id)
  {
    HasContent(items, id);
    NotSupplied(u, a, o, id);
    assert WellMinted(o, FirstCounter(o));
    NotInEarlierRuns(o, k, id);
  }

  lemma NotSupplied(u: set<Operation>, a: set<Operation>, o: Operation, id: Identity)
    requires Next(u, a, o) && InsertsId(o, id)
    ensures forall c :: c in Supplied(a) ==> c.node.id != id
  {
    forall p, c | p in a && c in Supply(p)
      ensures c.node.id != id
    {
      SupplyIsMinted(p, c);
      if c.node.id == id { ItemsAreUnique(u, p, o, id); }
    }
  }

  lemma NotInEarlierRuns(o: Operation, k: nat, id: Identity)
    requires o.Edit? && k < |o.inserts| && RunHolds(o.inserts[k], id)
    requires forall j, k :: 0 <= j < k < |o.inserts| ==> RunsApart(o.inserts[j], o.inserts[k])
    requires forall j :: 0 <= j < |o.inserts| ==> o.inserts[j].origin.actor == o.timestamp.actor
    ensures forall c :: c in SupplyOf(o, k) ==> c.node.id != id
  {
    forall m, c | 0 <= m < k && c in Contents(ItemsOf(RunFragment(o.inserts[m])))
      ensures c.node.id != id
    {
      assert RunsApart(o.inserts[m], o.inserts[k]);
      assert RunHolds(o.inserts[m], c.node.id);
    }
  }

  lemma SpliceContents(items: seq<Item>, p: nat, run: seq<Item>)
    requires p <= |items|
    ensures Contents(Splice(items, p, run)) == Contents(items) + Contents(run)
  {
    var r := Splice(items, p, run);
    forall i | 0 <= i < |items|
      ensures Content(items[i].node, items[i].content) in Contents(r)
    {
      var j := if i < p then i else i + |run|;
      assert r[j] == items[i];
    }
    forall i | 0 <= i < |run|
      ensures Content(run[i].node, run[i].content) in Contents(r)
    {
      assert r[p + i] == run[i];
    }
    forall j | 0 <= j < |r|
      ensures Content(r[j].node, r[j].content) in Contents(items) + Contents(run)
    {
      assert r[j] == if j < p then items[j] else if j < p + |run| then run[j - p] else items[j - |run|];
    }
  }

  lemma SupplyStep(o: Operation, k: nat)
    requires o.Edit? && k < |o.inserts|
    ensures SupplyOf(o, k + 1) == SupplyOf(o, k) + Contents(ItemsOf(RunFragment(o.inserts[k])))
  {
  }

  /** Integrating the next run, wherever it goes, makes progress. */
  lemma {:induction false} SplicedIsPartly(u: set<Operation>, a: set<Operation>, o: Operation, k: nat, items: seq<Item>, p: nat)
    requires Next(u, a, o) && o.Edit? && k < |o.inserts| && Partly(a, o, k, items) && p <= |items|
    requires Valid(NodesOf(Splice(items, p, ItemsOf(RunFragment(o.inserts[k])))))
    ensures Partly(a, o, k + 1, Splice(items, p, ItemsOf(RunFragment(o.inserts[k]))))
  {
    hide Honest, Closed, Valid, InsertsId, Deletes;
    var run := ItemsOf(RunFragment(o.inserts[k]));
    SpliceContents(items, p, run);
    SupplyStep(o, k);
    forall j, d | 0 <= j < |run|
      ensures d in run[j].dels <==> DeletedBy(a + {o}, run[j].node.id, d)
    {
      assert RunHolds(o.inserts[k], run[j].node.id);
      NewIsNotDeleted(u, a, o, run[j].node.id, d);
    }
    SpliceTold(a + {o}, items, p, run);
  }

  lemma SpliceTold(a: set<Operation>, items: seq<Item>, p: nat, run: seq<Item>)
    requires p <= |items| && DeletionsTold(a, items) && DeletionsTold(a, run)
    ensures DeletionsTold(a, Splice(items, p, run))
  {
    var r := Splice(items, p, run);
    assert forall j :: 0 <= j < |r| ==> r[j] == if j < p then items[j] else if j < p + |run| then run[j - p] else items[j - |run|];
  }

  /** The items with their visibility brought up to date. */
  ghost function ShowAll(items: seq<Item>, undo: seq<UndoEntry>): (r: seq<Item>)
    ensures |r| == |items|
  {
    seq(|items|, i requires 0 <= i < |items| =>
      items[i].(visible := ItemVisible(undo, items[i].node.id, items[i].dels)))
  }

  lemma ShowAllKeeps(items: seq<Item>, undo: seq<UndoEntry>)
    ensures NodesOf(ShowAll(items, undo)) == NodesOf(items) && Contents(ShowAll(items, undo)) == Contents(items)
    ensures forall a :: DeletionsTold(a, items) ==> DeletionsTold(a, ShowAll(items, undo))
    ensures Shown(ShowAll(items, undo), undo)
  {
    var r := ShowAll(items, undo);
    assert forall i :: 0 <= i < |items| ==> r[i].node == items[i].node && r[i].content == items[i].content;
  }

  /** An edit is applied once its deletions are marked, its runs are in and
      visibility is up to date. */
  lemma EditIsApplied(u: set<Operation>, a: set<Operation>, o: Operation, items: seq<Item>, undo: seq<UndoEntry>)
    requires Next(u, a, o) && o.Edit? && UndoTold(a, undo) && Partly(a, o, |o.inserts|, items)
    ensures Represents(a + {o}, ShowAll(items, undo), undo)
  {
    ShowAllKeeps(items, undo);
    SuppliedMore(a, o);
    forall e
      ensures Recorded(a + {o}, e) <==> Recorded(a, e)
    {
      RecordedMore(a, o, e);
    }
  }

  lemma SuppliedMore(a: set<Operation>, o: Operation)
    ensures Supplied(a + {o}) == Supplied(a) + Supply(o)
  {
  }

  lemma RecordedMore(a: set<Operation>, o: Operation, e: UndoEntry)
    ensures Recorded(a + {o}, e) <==>
              Recorded(a, e) || (o.Undo? && o.timestamp == e.undo && UndoCount(e.target, e.count) in o.counts)
  {
    if Recorded(a, e) {
      var p :| p in a && p.Undo? && p.timestamp == e.undo && UndoCount(e.target, e.count) in p.counts;
      assert p in a + {o};
    }
    if o.Undo? && o.timestamp == e.undo && UndoCount(e.target, e.count) in o.counts {
      assert o in a + {o};
    }
  }

  // ---- Applying an undo --------------------------------------------------

  function EntriesOf(o: Operation): (r: seq<UndoEntry>)
    requires o.Undo?
    ensures |r| == |o.counts|
  {
    seq(|o.counts|, i requires 0 <= i < |o.counts| => UndoEntry(o.counts[i].target, o.timestamp, o.counts[i].count))
  }

  lemma UndoIsApplied(u: set<Operation>, a: set<Operation>, o: Operation, items: seq<Item>, undo: seq<UndoEntry>)
    requires o.Undo? && Represents(a, items, undo)
    ensures Represents(a + {o}, ShowAll(items, undo + EntriesOf(o)), undo + EntriesOf(o))
  {
    var more := undo + EntriesOf(o);
    ShowAllKeeps(items, more);
    SuppliedMore(a, o);
    assert Supply(o) == {};
    forall i, d | 0 <= i < |items|
      ensures DeletedBy(a + {o}, items[i].node.id, d) <==> DeletedBy(a, items[i].node.id, d)
    {
      DeletedByMore(a, o, items[i].node.id, d);
    }
    assert DeletionsTold(a + {o}, items);
    forall e
      ensures e in more <==> Recorded(a + {o}, e)
    {
      RecordedMore(a, o, e);
      EntriesAre(o, e);
    }
  }

  lemma EntriesAre(o: Operation, e: UndoEntry)
    requires o.Undo?
    ensures e in EntriesOf(o) <==> o.timestamp == e.undo && UndoCount(e.target, e.count) in o.counts
  {
    var r := EntriesOf(o);
    if UndoCount(e.target, e.count) in o.counts && o.timestamp == e.undo {
      var i :| 0 <= i < |o.counts| && o.counts[i] == UndoCount(e.target, e.count);
      assert r[i] == e;
    }
  }
}
