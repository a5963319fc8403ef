/** What the document order promises: it is determined by the set of nodes
    alone, a minted link lands exactly where it was asked for, subtrees are
    contiguous, and a typed run is only ever split from inside. */
module FugueLaws {
  import opened Ids
  import opened FugueOrder

  // ---- The order is a function of the set of nodes -----------------------

  ghost function Nodes(doc: Doc): set<Node> {
    set i | 0 <= i < |doc| :: doc[i]
  }

  /** The item with the largest identity: nothing in the document names it. */
  lemma {:induction false} LargestItem(doc: Doc) returns (m: nat)
    requires doc != [] && Distinct(doc)
    ensures m < |doc|
    ensures forall i :: 0 <= i < |doc| ==> doc[i].id.counter <= doc[m].id.counter
  {
    if |doc| == 1 {
      m := 0;
    } else {
      var k := LargestItem(doc[..|doc| - 1]);
      m := if doc[k].id.counter < doc[|doc| - 1].id.counter then |doc| - 1 else k;
    }
  }

  function RemoveAt(doc: Doc, p: nat): Doc
    requires p < |doc|
  {
    doc[..p] + doc[p + 1..]
  }

  lemma InsertAfterRemove(doc: Doc, m: nat)
    requires m < |doc|
    ensures InsertAt(RemoveAt(doc, m), m, doc[m]) == doc
  {
  }

  /** Removing an item nothing names leaves a valid document, in which the
      removed item belongs exactly where it was. */
  lemma RemoveLargest(doc: Doc, m: nat)
    requires Valid(doc) && m < |doc|
    requires forall i :: 0 <= i < |doc| ==> doc[i].id.counter <= doc[m].id.counter
    ensures InsertAt(RemoveAt(doc, m), m, doc[m]) == doc
    ensures !Has(RemoveAt(doc, m), doc[m].id)
    ensures Valid(RemoveAt(doc, m))
    ensures LinkFits(RemoveAt(doc, m), doc[m]) && Belongs(RemoveAt(doc, m), m, doc[m])
  {
    assert Unnamed(doc, m);
    RemoveUnnamed(doc, m);
    InsertValid(RemoveAt(doc, m), m, doc[m]);
  }

  /** No link of the document names item `m`. */
  ghost predicate Unnamed(doc: Doc, m: nat)
    requires m < |doc|
  {
    forall i :: 0 <= i < |doc| ==> doc[i].link.parent != Some(doc[m].id) && doc[i].link.rightOrigin != Some(doc[m].id)
  }

  lemma RemoveUnnamed(doc: Doc, m: nat)
    requires Valid(doc) && m < |doc| && Unnamed(doc, m)
    ensures InsertAt(RemoveAt(doc, m), m, doc[m]) == doc
    ensures !Has(RemoveAt(doc, m), doc[m].id)
    ensures Valid(RemoveAt(doc, m)) && LinkFits(RemoveAt(doc, m), doc[m])
  {
    InsertAfterRemove(doc, m);
    RemoveLinked(doc, m);
    RemoveOrdered(doc, m);
  }

  lemma RemoveKeeps(doc: Doc, m: nat, id: Identity)
    requires m < |doc| && Distinct(doc) && Has(doc, id) && id != doc[m].id
    ensures Has(RemoveAt(doc, m), id)
  {
    var s, i := RemoveAt(doc, m), Index(doc, id);
    assert s[if i < m then i else i - 1] == doc[i];
  }

  lemma RemoveLinked(doc: Doc, m: nat)
    requires Linked(doc) && m < |doc| && Unnamed(doc, m)
    ensures Linked(RemoveAt(doc, m)) && !Has(RemoveAt(doc, m), doc[m].id)
    ensures LinkFits(RemoveAt(doc, m), doc[m])
  {
    var s := RemoveAt(doc, m);
    assert forall i :: 0 <= i < |s| ==> s[i] == doc[if i < m then i else i + 1];
    forall i | 0 <= i < |doc|
      ensures LinkFits(s, doc[i])
    {
      var n := doc[i];
      assert LinkFits(doc, n);
      if n.link.parent.Some? { RemoveKeeps(doc, m, n.link.parent.value); }
      if n.link.rightOrigin.Some? { RemoveKeeps(doc, m, n.link.rightOrigin.value); }
    }
  }

  lemma RemoveOrdered(doc: Doc, m: nat)
    requires Valid(doc) && m < |doc|
    requires Linked(RemoveAt(doc, m)) && !Has(RemoveAt(doc, m), doc[m].id)
    requires LinkFits(RemoveAt(doc, m), doc[m])
    ensures Valid(RemoveAt(doc, m))
  {
    var s := RemoveAt(doc, m);
    InsertAfterRemove(doc, m);
    forall i, j | 0 <= i < j < |s|
      ensures Before(s, s[i].id, s[j].id)
    {
      HasItem(s, i);
      HasItem(s, j);
      var di, dj := if i < m then i else i + 1, if j < m then j else j + 1;
      assert s[i] == doc[di] && s[j] == doc[dj];
      assert Before(doc, doc[di].id, doc[dj].id);
      InsertKeepsBefore(s, m, doc[m], s[i].id, s[j].id);
    }
  }

  lemma NodesAfterRemoval(doc: Doc, m: nat)
    requires Distinct(doc) && m < |doc|
    ensures Nodes(RemoveAt(doc, m)) == Nodes(doc) - {doc[m]}
  {
    var s := RemoveAt(doc, m);
    forall n | n in Nodes(doc) && n != doc[m]
      ensures n in Nodes(s)
    {
      var i :| 0 <= i < |doc| && doc[i] == n;
      assert s[if i < m then i else i - 1] == n;
    }
    forall n | n in Nodes(s)
      ensures n in Nodes(doc) && n != doc[m]
    {
      var i :| 0 <= i < |s| && s[i] == n;
      assert s[i] == doc[if i < m then i else i + 1];
    }
  }

  /** Convergence of placement: two valid documents over the same nodes are the
      same sequence, whatever order the nodes arrived in. */
  lemma {:induction false} SameNodesSameOrder(d1: Doc, d2: Doc)
    requires Valid(d1) && Valid(d2) && Nodes(d1) == Nodes(d2)
    ensures d1 == d2
    decreases |d1|
  {
    assert |d2| > 0 ==> d2[0] in Nodes(d2);
    if d1 != [] {
      var m1 := LargestItem(d1);
      assert d1[m1] in Nodes(d2);
      var m2 :| 0 <= m2 < |d2| && d2[m2] == d1[m1];
      forall i | 0 <= i < |d2|
        ensures d2[i].id.counter <= d2[m2].id.counter
      {
        assert d2[i] in Nodes(d1);
      }
      RemoveLargest(d1, m1);
      RemoveLargest(d2, m2);
      NodesAfterRemoval(d1, m1);
      NodesAfterRemoval(d2, m2);
      SameNodesSameOrder(RemoveAt(d1, m1), RemoveAt(d2, m2));
      BelongsOnce(RemoveAt(d1, m1), m1, m2, d1[m1]);
    }
  }

  lemma NodesAfterInsert(doc: Doc, p: nat, n: Node)
    requires p <= |doc|
    ensures Nodes(InsertAt(doc, p, n)) == Nodes(doc) + {n}
  {
    InsertAtItems(doc, p, n);
    var r := InsertAt(doc, p, n);
    assert forall i :: 0 <= i < |doc| ==> r[if i < p then i else i + 1] == doc[i];
    assert r[p] == n;
  }

  /** Two nodes neither of which hangs off the other integrate in either order. */
  lemma IntegrateCommutes(doc: Doc, a: Node, b: Node)
    requires Valid(doc) && LinkFits(doc, a) && LinkFits(doc, b)
    requires !Has(doc, a.id) && !Has(doc, b.id) && a.id != b.id
    ensures !Has(Integrate(doc, a), b.id) && LinkFits(Integrate(doc, a), b)
    ensures !Has(Integrate(doc, b), a.id) && LinkFits(Integrate(doc, b), a)
    ensures Integrate(Integrate(doc, a), b) == Integrate(Integrate(doc, b), a)
  {
    var pa, pb := Place(doc, a), Place(doc, b);
    InsertIndex(doc, pa, a, b.id);
    InsertIndex(doc, pb, b, a.id);
    InsertLinkFits(doc, pa, a, b);
    InsertLinkFits(doc, pb, b, a);
    var da, db := Integrate(doc, a), Integrate(doc, b);
    NodesAfterInsert(doc, pa, a);
    NodesAfterInsert(doc, pb, b);
    NodesAfterInsert(da, Place(da, b), b);
    NodesAfterInsert(db, Place(db, a), a);
    SameNodesSameOrder(Integrate(da, b), Integrate(db, a));
  }

  // ---- Local placement is exact ------------------------------------------

  /** List position just after `left`, or the start of the document. */
  ghost function After(doc: Doc, left: Option<Identity>): (p: nat)
    requires left.Some? ==> Has(doc, left.value)
    ensures p <= |doc|
  {
    if left.None? then 0 else Index(doc, left.value) + 1
  }

  /** The link for an element that is to sit immediately after `left`: a right
      child of `left` unless the next element is already under `left`, and then
      a left child of that element. */
  ghost function MintLink(doc: Doc, left: Option<Identity>): Link
    requires Linked(doc) && (left.Some? ==> Has(doc, left.value))
  {
    var p := After(doc, left);
    var right := if p == |doc| then None else Some(doc[p].id);
    if right.Some? && Under(doc, doc[p].id, left)
    then Link(right, Left, right)
    else Link(left, Right, right)
  }

  lemma MintedLinkFits(doc: Doc, left: Option<Identity>, id: Identity)
    requires Linked(doc) && (left.Some? ==> Has(doc, left.value))
    requires forall i :: 0 <= i < |doc| ==> doc[i].id.counter < id.counter
    ensures LinkFits(doc, Node(id, MintLink(doc, left)))
  {
    var p := After(doc, left);
    if p < |doc| {
      HasItem(doc, p);
    }
  }

  /** A new element carrying a minted link belongs exactly at the requested
      position, whatever its identity: no sibling order is consulted. */
  lemma MintedLinkIsExact(doc: Doc, left: Option<Identity>, id: Identity)
    requires Valid(doc) && (left.Some? ==> Has(doc, left.value)) && !Has(doc, id)
    requires LinkFits(doc, Node(id, MintLink(doc, left)))
    ensures Belongs(doc, After(doc, left), Node(id, MintLink(doc, left)))
  {
    var p, n := After(doc, left), Node(id, MintLink(doc, left));
    if p > 0 {
      MintedAfterLeft(doc, left, id);
      EarlierIsLess(doc, n, p);
    }
    if p < |doc| {
      MintedBeforeNext(doc, left, id);
      LaterIsGreater(doc, n, p);
    }
  }

  lemma MintedAfterLeft(doc: Doc, left: Option<Identity>, id: Identity)
    requires Valid(doc) && left.Some? && Has(doc, left.value) && !Has(doc, id)
    requires LinkFits(doc, Node(id, MintLink(doc, left)))
    ensures PathLess(Path(doc, left.value), NodePath(doc, Node(id, MintLink(doc, left))))
  {
    var p, n := After(doc, left), Node(id, MintLink(doc, left));
    if n.link.side.Right? {
      CompareParent(doc, n);
    } else {
      var r := doc[p].id;
      assert Before(doc, doc[p - 1].id, doc[p].id);
      NotUnderLater(doc, left.value, r, left);
      CompareOutside(doc, left.value, n);
    }
  }

  lemma MintedBeforeNext(doc: Doc, left: Option<Identity>, id: Identity)
    requires Valid(doc) && (left.Some? ==> Has(doc, left.value)) && !Has(doc, id)
    requires LinkFits(doc, Node(id, MintLink(doc, left))) && After(doc, left) < |doc|
    ensures PathLess(NodePath(doc, Node(id, MintLink(doc, left))), Path(doc, doc[After(doc, left)].id))
  {
    var p, n := After(doc, left), Node(id, MintLink(doc, left));
    var r := doc[p].id;
    HasItem(doc, p);
    if n.link.side.Left? {
      CompareParent(doc, n);
    } else if left.Some? {
      assert Before(doc, doc[p - 1].id, doc[p].id);
      IndexIs(doc, p);
      CompareOutside(doc, r, n);
    } else {
      RootHasAll(doc, r);
    }
  }

  /** The root has everything under it. */
  lemma {:induction false} RootHasAll(doc: Doc, id: Identity)
    requires Linked(doc) && Has(doc, id)
    ensures Under(doc, id, None)
    decreases id.counter
  {
    var parent := ParentOf(doc, id);
    if parent.Some? {
      RootHasAll(doc, parent.value);
    }
  }

  /** Ancestors are older than their descendants. */
  lemma {:induction false} AncestorIsOlder(doc: Doc, id: Identity, a: Identity)
    requires Linked(doc) && Has(doc, id) && Under(doc, id, Some(a))
    ensures a.counter < id.counter
    decreases id.counter
  {
    var parent := ParentOf(doc, id);
    if parent != Some(a) {
      AncestorIsOlder(doc, parent.value, a);
    }
  }

  lemma NotUnderLater(doc: Doc, l: Identity, r: Identity, left: Option<Identity>)
    requires Linked(doc) && Has(doc, l) && Has(doc, r) && left == Some(l) && Under(doc, r, left)
    ensures l != r && !Under(doc, l, Some(r))
  {
    AncestorIsOlder(doc, r, l);
    if Under(doc, l, Some(r)) {
      AncestorIsOlder(doc, l, r);
    }
  }

  /** Integrating a minted element inserts it at the requested position. */
  lemma MintThenIntegrate(doc: Doc, left: Option<Identity>, id: Identity)
    requires Valid(doc) && (left.Some? ==> Has(doc, left.value)) && !Has(doc, id)
    requires forall i :: 0 <= i < |doc| ==> doc[i].id.counter < id.counter
    ensures LinkFits(doc, Node(id, MintLink(doc, left)))
    ensures Integrate(doc, Node(id, MintLink(doc, left)))
            == InsertAt(doc, After(doc, left), Node(id, MintLink(doc, left)))
  {
    var n := Node(id, MintLink(doc, left));
    MintedLinkFits(doc, left, id);
    MintedLinkIsExact(doc, left, id);
    BelongsOnce(doc, After(doc, left), Place(doc, n), n);
  }

  // ---- Subtrees are contiguous -------------------------------------------

  /** Whatever lies between two members of a subtree, root included, is a member. */
  lemma SubtreeContiguous(doc: Doc, a: Identity, x: nat, y: nat, z: nat)
    requires Valid(doc) && Has(doc, a) && x < y < z < |doc|
    requires doc[x].id == a || Under(doc, doc[x].id, Some(a))
    requires doc[z].id == a || Under(doc, doc[z].id, Some(a))
    ensures doc[y].id == a || Under(doc, doc[y].id, Some(a))
  {
    HasItem(doc, x);
    HasItem(doc, y);
    HasItem(doc, z);
    AtOrUnderPath(doc, doc[x].id, a);
    AtOrUnderPath(doc, doc[z].id, a);
    assert Before(doc, doc[x].id, doc[y].id) && Before(doc, doc[y].id, doc[z].id);
    PrefixBetween(Path(doc, a), Path(doc, doc[x].id), Path(doc, doc[y].id), Path(doc, doc[z].id));
    PrefixIsAncestor(doc, doc[y].id, a);
  }

  lemma PrefixBetween(pa: seq<Key>, px: seq<Key>, py: seq<Key>, pz: seq<Key>)
    requires pa <= px && pa <= pz && PathLess(px, py) && PathLess(py, pz)
    ensures pa <= py
  {
    if !(pa <= py) {
      assert px == pa + px[|pa|..] && pz == pa + pz[|pa|..];
      PathLessOutside(py, pa, px[|pa|..]);
      PathLessOutside(py, pa, pz[|pa|..]);
      PathLessTotal(pa, py);
    }
  }

  lemma AtOrUnderPath(doc: Doc, id: Identity, a: Identity)
    requires Linked(doc) && Has(doc, id) && Has(doc, a) && (id == a || Under(doc, id, Some(a)))
    ensures Path(doc, a) <= Path(doc, id)
  {
    if id != a {
      TopChildPath(doc, id, Some(a));
    }
  }

  /** A typed run is split only from inside: a node inserted between an item and
      the right child that follows it hangs, directly or not, off that item. */
  lemma OnlyInsidersSplit(doc: Doc, k: nat, p: nat, n: Node)
    requires Valid(doc) && LinkFits(doc, n) && !Has(doc, n.id) && Belongs(doc, p, n)
    requires k + 1 < |doc| && doc[k + 1].link.parent == Some(doc[k].id) && p == k + 1
    ensures n.link.parent.Some?
    ensures n.link.parent.value == doc[k].id || Under(doc, n.link.parent.value, Some(doc[k].id))
  {
    var doc' := InsertAt(doc, p, n);
    InsertValid(doc, p, n);
    InsertAtItems(doc, p, n);
    var a := doc[k].id;
    InsertIndex(doc, p, n, a);
    HasItem(doc', k);
    HasItem(doc', k + 1);
    HasItem(doc', k + 2);
    IndexIs(doc', k + 1);
    IndexIs(doc', k + 2);
    assert doc'[k + 2] == doc[k + 1];
    assert ParentOf(doc', doc'[k + 2].id) == Some(a);
    SubtreeContiguous(doc', a, k, k + 1, k + 2);
    assert Under(doc', n.id, Some(a));
    var parent := n.link.parent;
    assert ParentOf(doc', n.id) == parent;
    if parent != Some(a) {
      InsertKeepsUnder(doc, p, n, parent.value, Some(a));
    }
  }

  /** Insertion moves no present item to another parent. */
  lemma {:induction false} InsertKeepsUnder(doc: Doc, p: nat, n: Node, id: Identity, a: Option<Identity>)
    requires p <= |doc| && Linked(doc) && !Has(doc, n.id) && LinkFits(doc, n) && Has(doc, id)
    ensures Linked(InsertAt(doc, p, n)) && Has(InsertAt(doc, p, n), id)
    ensures TopChild(InsertAt(doc, p, n), id, a) == TopChild(doc, id, a)
    decreases id.counter
  {
    var doc' := InsertAt(doc, p, n);
    InsertLinked(doc, p, n);
    InsertIndex(doc, p, n, id);
    InsertAtItems(doc, p, n);
    assert doc'[Index(doc', id)] == doc[Index(doc, id)];
    var parent := ParentOf(doc, id);
    if parent != a && parent.Some? {
      InsertKeepsUnder(doc, p, n, parent.value, a);
    }
  }

  // ---- Subtrees, seen from a parent --------------------------------------

  /** Everything at or under a child of `parent` has that child on its way up. */
  lemma {:induction false} UnderChild(doc: Doc, z: Identity, c: Identity, parent: Option<Identity>)
    requires Linked(doc) && Has(doc, z) && Has(doc, c) && ParentOf(doc, c) == parent
    requires z == c || Under(doc, z, Some(c))
    ensures TopChild(doc, z, parent) == Some(c)
    decreases z.counter
  {
    if z != c {
      var up := ParentOf(doc, z).value;
      if up != c {
        if Some(up) == parent {
          AncestorIsOlder(doc, up, c);
        }
      }
      UnderChild(doc, up, c, parent);
    }
  }

  /** Children on the right follow their parent, children on the left precede it. */
  lemma ChildSide(doc: Doc, z: Identity, parent: Identity, c: Identity)
    requires Valid(doc) && Has(doc, z) && Has(doc, parent) && TopChild(doc, z, Some(parent)) == Some(c)
    ensures doc[Index(doc, c)].link.side.Right? <==> Index(doc, parent) < Index(doc, z)
  {
    TopChildPath(doc, z, Some(parent));
    var up, kc := Path(doc, parent), KeyOf(doc, doc[Index(doc, c)]);
    var rest := Path(doc, z)[|Path(doc, c)|..];
    SplitPath(Path(doc, z), Path(doc, c), up, kc);
    PathLessUnder(up, [], [kc] + rest);
    assert up + [] == up;
    BeforeIsIndex(doc, parent, z);
  }

  /** A node nobody names as parent has nothing under it. */
  lemma {:induction false} NothingUnder(doc: Doc, z: Identity, a: Identity)
    requires Linked(doc) && Has(doc, z)
    requires forall i :: 0 <= i < |doc| ==> doc[i].link.parent != Some(a)
    ensures !Under(doc, z, Some(a))
    decreases z.counter
  {
    var parent := ParentOf(doc, z);
    if parent.Some? {
      NothingUnder(doc, parent.value, a);
    }
  }

  // ---- Runs --------------------------------------------------------------

  /** Consecutive identities of one actor, each item but the first a right child
      of its predecessor with the first one's right origin. */
  ghost predicate IsChain(chain: Doc) {
    && chain != []
    && (forall k :: 0 <= k < |chain| ==>
          chain[k].id == Identity(chain[0].id.actor, chain[0].id.counter + k))
    && (forall k :: 0 < k < |chain| ==>
          chain[k].link == Link(Some(chain[k - 1].id), Right, chain[0].link.rightOrigin))
  }

  ghost predicate Fresh(doc: Doc, chain: Doc) {
    forall k :: 0 <= k < |chain| ==> !Has(doc, chain[k].id)
  }

  function Splice<T>(s: seq<T>, p: nat, t: seq<T>): seq<T>
    requires p <= |s|
  {
    s[..p] + t + s[p..]
  }

  /** A whole run goes where its first item belongs: every later item belongs
      right after its predecessor. */
  lemma {:induction false} SpliceRun(doc: Doc, p: nat, chain: Doc)
    requires Valid(doc) && IsChain(chain) && Fresh(doc, chain)
    requires LinkFits(doc, chain[0]) && Belongs(doc, p, chain[0])
    ensures Valid(Splice(doc, p, chain))
    ensures Nodes(Splice(doc, p, chain)) == Nodes(doc) + Nodes(chain)
    decreases |chain|
  {
    var last := |chain| - 1;
    if last == 0 {
      InsertValid(doc, p, chain[0]);
      assert chain == [chain[0]];
      assert Splice(doc, p, chain) == InsertAt(doc, p, chain[0]);
      NodesAfterInsert(doc, p, chain[0]);
      assert Nodes(chain) == {chain[0]};
    } else {
      var init := chain[..last];
      SpliceRun(doc, p, init);
      var d := Splice(doc, p, init);
      assert chain == init + [chain[last]];
      assert Splice(doc, p, chain) == InsertAt(d, p + last, chain[last]);
      NextOfRunBelongs(doc, p, chain);
      InsertValid(d, p + last, chain[last]);
      NodesAfterInsert(d, p + last, chain[last]);
      NodesAfterInsert(init, last, chain[last]);
      assert InsertAt(init, last, chain[last]) == chain;
    }
  }

  lemma SpliceHas(doc: Doc, p: nat, chain: Doc, id: Identity)
    requires p <= |doc|
    ensures Has(Splice(doc, p, chain), id) <==> Has(doc, id) || Has(chain, id)
  {
    var r := Splice(doc, p, chain);
    if Has(doc, id) {
      var i :| 0 <= i < |doc| && doc[i].id == id;
      assert r[if i < p then i else i + |chain|] == doc[i];
    }
    if Has(chain, id) {
      var i :| 0 <= i < |chain| && chain[i].id == id;
      assert r[p + i] == chain[i];
    }
    if Has(r, id) {
      var i :| 0 <= i < |r| && r[i].id == id;
      assert r[i] == if i < p then doc[i] else if i < p + |chain| then chain[i - p] else doc[i - |chain|];
    }
  }

  lemma NextOfRunBelongs(doc: Doc, p: nat, chain: Doc)
    requires p <= |doc| && |chain| > 1 && IsChain(chain) && Fresh(doc, chain)
    requires Linked(doc) && LinkFits(doc, chain[0])
    requires Valid(Splice(doc, p, chain[..|chain| - 1]))
    ensures var d := Splice(doc, p, chain[..|chain| - 1]);
            var n := chain[|chain| - 1];
            !Has(d, n.id) && LinkFits(d, n) && Belongs(d, p + |chain| - 1, n)
  {
    var last := |chain| - 1;
    var n, a := chain[last], chain[last - 1].id;
    var d := Splice(doc, p, chain[..last]);
    NextOfRunFits(doc, p, chain);
    CompareParent(d, n);
    EarlierIsLess(d, n, p + last);
    if p + last < |d| {
      HasItem(d, p + last);
      var z := d[p + last].id;
      NobodyNames(doc, p, chain, a);
      NothingUnder(d, z, a);
      BeforeIsIndex(d, a, z);
      IndexIs(d, p + last);
      CompareOutside(d, z, n);
      LaterIsGreater(d, n, p + last);
    }
  }

  lemma NextOfRunFits(doc: Doc, p: nat, chain: Doc)
    requires p <= |doc| && |chain| > 1 && IsChain(chain) && Fresh(doc, chain)
    requires Linked(doc) && LinkFits(doc, chain[0])
    requires Linked(Splice(doc, p, chain[..|chain| - 1]))
    ensures var d := Splice(doc, p, chain[..|chain| - 1]);
            var n := chain[|chain| - 1];
            && !Has(d, n.id) && LinkFits(d, n) && n.link.parent == Some(chain[|chain| - 2].id)
            && Index(d, chain[|chain| - 2].id) == p + |chain| - 2
  {
    var last := |chain| - 1;
    var init, n := chain[..last], chain[last];
    var d := Splice(doc, p, init);
    SpliceHas(doc, p, init, n.id);
    assert d[p + last - 1] == init[last - 1];
    IndexIs(d, p + last - 1);
    if chain[0].link.rightOrigin.Some? {
      SpliceHas(doc, p, init, chain[0].link.rightOrigin.value);
    }
  }

  lemma NobodyNames(doc: Doc, p: nat, chain: Doc, a: Identity)
    requires p <= |doc| && |chain| > 1 && IsChain(chain) && Fresh(doc, chain)
    requires Linked(doc) && LinkFits(doc, chain[0]) && a == chain[|chain| - 2].id
    ensures var d := Splice(doc, p, chain[..|chain| - 1]);
            forall i :: 0 <= i < |d| ==> d[i].link.parent != Some(a)
  {
    var init := chain[..|chain| - 1];
    var d := Splice(doc, p, init);
    assert !Has(doc, a);
    forall i | 0 <= i < |d|
      ensures d[i].link.parent != Some(a)
    {
      if p <= i < p + |init| {
        assert d[i] == chain[i - p];
        if i > p {
          assert chain[i - p].link.parent == Some(chain[i - p - 1].id);
        }
      } else {
        var j := if i < p then i else i - |init|;
        assert d[i] == doc[j];
        assert LinkFits(doc, doc[j]);
      }
    }
  }

  // ---- The order in terms of positions ---------------------------------------

  /** The first right origin is later in the list; the end of the list is last. */
  ghost predicate LaterOrigin(doc: Doc, a: Option<Identity>, b: Option<Identity>)
    requires (a.Some? ==> Has(doc, a.value)) && (b.Some? ==> Has(doc, b.value))
  {
    b.Some? && (a.None? || Index(doc, a.value) > Index(doc, b.value))
  }

  /** FugueMax, read off a document: of two children of one parent, a left one comes
      before a right one; left ones go by identity; of right ones that with the later
      right origin comes first, and identity decides between equal ones. */
  lemma {:induction false} SiblingLaw(doc: Doc, i: nat, j: nat)
    requires Valid(doc) && i < |doc| && j < |doc| && i != j && doc[i].link.parent == doc[j].link.parent
    ensures var x, y := doc[i], doc[j];
            && (x.link.rightOrigin.Some? ==> Has(doc, x.link.rightOrigin.value))
            && (y.link.rightOrigin.Some? ==> Has(doc, y.link.rightOrigin.value))
            && (x.link.side.Left? && y.link.side.Right? ==> i < j)
            && (x.link.side.Left? && y.link.side.Left? ==> (i < j <==> IdLess(x.id, y.id)))
            && (x.link.side.Right? && y.link.side.Right? ==>
                  (i < j <==> || LaterOrigin(doc, x.link.rightOrigin, y.link.rightOrigin)
                              || (x.link.rightOrigin == y.link.rightOrigin && IdLess(x.id, y.id))))
  {
    var x, y := doc[i], doc[j];
    assert LinkFits(doc, x) && LinkFits(doc, y);
    SiblingsCompare(doc, i, j);
    SiblingsCompare(doc, j, i);
    if x.link.side.Right? && y.link.side.Right? { SameOrigin(doc, x, y); SameOrigin(doc, y, x); }
    hide Valid, Ordered, Linked, Path, Before;
  }

  lemma {:induction false} SiblingsCompare(doc: Doc, i: nat, j: nat)
    requires Valid(doc) && i < |doc| && j < |doc| && i != j && doc[i].link.parent == doc[j].link.parent
    ensures LinkFits(doc, doc[i]) && LinkFits(doc, doc[j])
    ensures KeyLess(KeyOf(doc, doc[i]), KeyOf(doc, doc[j])) <==> i < j
  {
    var x, y := doc[i], doc[j];
    assert LinkFits(doc, x) && LinkFits(doc, y);
    IndexIs(doc, i);
    IndexIs(doc, j);
    var p := PathUnder(doc, x.link.parent, x.id.counter);
    var a, b := KeyOf(doc, x), KeyOf(doc, y);
    assert Path(doc, x.id) == p + [a] && Path(doc, y.id) == p + [b];
    PathLessUnder(p, [a], [b]);
    PathLessUnder(p, [b], [a]);
    PathLessTotal([a], [b]);
    assert i < j ==> Before(doc, x.id, y.id);
    assert j < i ==> Before(doc, y.id, x.id);
    assert x.id != y.id;
    hide Valid, Linked, Ordered, Path, PathUnder, KeyOf, LinkFits, KeyLess;
  }

  lemma {:induction false} SameOrigin(doc: Doc, x: Node, y: Node)
    requires Distinct(doc) && LinkFits(doc, x) && LinkFits(doc, y) && x.link.side.Right? && y.link.side.Right?
    ensures RankOf(doc, x.link) == RankOf(doc, y.link) <==> x.link.rightOrigin == y.link.rightOrigin
    ensures RankOf(doc, x.link) > RankOf(doc, y.link) <==> LaterOrigin(doc, x.link.rightOrigin, y.link.rightOrigin)
  {
  }

  /** A left child comes before its parent, a right child after it. */
  lemma {:induction false} ParentLaw(doc: Doc, i: nat, j: nat)
    requires Valid(doc) && i < |doc| && j < |doc| && doc[i].link.parent == Some(doc[j].id)
    ensures i < j <==> doc[i].link.side.Left?
    ensures j < i <==> doc[i].link.side.Right?
  {
    var x, y := doc[i], doc[j];
    assert LinkFits(doc, x);
    IndexIs(doc, i);
    IndexIs(doc, j);
    var p, k := Path(doc, y.id), KeyOf(doc, x);
    assert Path(doc, x.id) == p + [k];
    assert p + [] == p;
    PathLessUnder(p, [k], []);
    PathLessUnder(p, [], [k]);
    assert i < j ==> Before(doc, x.id, y.id);
    assert j < i ==> Before(doc, y.id, x.id);
    hide Valid, Linked, Ordered, Path, LinkFits;
  }
}
