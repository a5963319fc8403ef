/** The FugueMax document order, at the level of single items.

    A document is a sequence of nodes. Every node says where it hangs: a parent
    (or the root), a side of that parent, and a right origin. The order the
    links ask for is the in-order traversal of the tree they span: left children
    and their subtrees, the node, right children and their subtrees; left
    siblings by identity, right siblings by the reverse list order of their
    right origins and then by identity.

    That order is expressed here without building a tree: a node's path is the
    sequence of sibling keys from the root down to it, and two nodes compare as
    their paths do, where the end of a path sorts after every left child and
    before every right child. */
module FugueOrder {
  import opened Ids

  datatype Side = Left | Right

  datatype Link = Link(parent: Option<Identity>, side: Side, rightOrigin: Option<Identity>)

  datatype Node = Node(id: Identity, link: Link)

  type Doc = seq<Node>

  /** What orders siblings: the side, the list position of the right origin
      (larger first) and the identity. */
  datatype Key = Key(side: Side, rank: int, id: Identity)

  // ---- Sibling and path comparison --------------------------------------

  predicate KeyLess(a: Key, b: Key) {
    if a.side != b.side then a.side.Left?
    else if a.rank != b.rank then a.rank > b.rank
    else IdLess(a.id, b.id)
  }

  /** In-order comparison of two paths from the same root. */
  predicate PathLess(p: seq<Key>, q: seq<Key>) {
    if p == [] then q != [] && q[0].side.Right?
    else if q == [] then p[0].side.Left?
    else if p[0] == q[0] then PathLess(p[1..], q[1..])
    else KeyLess(p[0], q[0])
  }

  lemma PathLessIrreflexive(p: seq<Key>)
    ensures !PathLess(p, p)
  {
  }

  lemma PathLessTotal(p: seq<Key>, q: seq<Key>)
    ensures p != q ==> PathLess(p, q) || PathLess(q, p)
    ensures !(PathLess(p, q) && PathLess(q, p))
  {
    if p != [] && q != [] && p[0] == q[0] {
      PathLessTotal(p[1..], q[1..]);
      assert p == [p[0]] + p[1..] && q == [q[0]] + q[1..];
    }
  }

  lemma PathLessTransitive(p: seq<Key>, q: seq<Key>, r: seq<Key>)
    requires PathLess(p, q) && PathLess(q, r)
    ensures PathLess(p, r)
  {
    if p != [] && q != [] && r != [] && p[0] == q[0] && q[0] == r[0] {
      PathLessTransitive(p[1..], q[1..], r[1..]);
    }
  }

  /** A path that leaves `p` compares the same with everything at or under `p`. */
  lemma PathLessOutside(z: seq<Key>, p: seq<Key>, rest: seq<Key>)
    requires !(p <= z)
    ensures PathLess(z, p + rest) == PathLess(z, p)
    ensures PathLess(p + rest, z) == PathLess(p, z)
  {
    if z != [] && p != [] && z[0] == p[0] {
      assert (p + rest)[0] == p[0] && (p + rest)[1..] == p[1..] + rest;
      assert p[1..] <= z[1..] ==> p <= z by {
        assert p == [p[0]] + p[1..] && z == [z[0]] + z[1..];
      }
      PathLessOutside(z[1..], p[1..], rest);
    }
  }

  /** Below a common ancestor, comparison starts at the ancestor's children. */
  lemma PathLessUnder(p: seq<Key>, a: seq<Key>, b: seq<Key>)
    ensures PathLess(p + a, p + b) == PathLess(a, b)
  {
    if p == [] {
      assert p + a == a && p + b == b;
    } else {
      assert (p + a)[0] == (p + b)[0] == p[0];
      assert (p + a)[1..] == p[1..] + a && (p + b)[1..] == p[1..] + b;
      PathLessUnder(p[1..], a, b);
    }
  }

  // ---- Documents ---------------------------------------------------------

  ghost predicate Has(doc: Doc, id: Identity) {
    exists i :: 0 <= i < |doc| && doc[i].id == id
  }

  ghost function Index(doc: Doc, id: Identity): (i: nat)
    requires Has(doc, id)
    ensures i < |doc| && doc[i].id == id
  {
    var i :| 0 <= i < |doc| && doc[i].id == id;
    i
  }

  ghost predicate Distinct(doc: Doc) {
    forall i, j :: 0 <= i < j < |doc| ==> doc[i].id != doc[j].id
  }

  lemma IndexIs(doc: Doc, i: nat)
    requires Distinct(doc) && i < |doc|
    ensures Has(doc, doc[i].id) && Index(doc, doc[i].id) == i
  {
  }

  /** A node's link names items of the document that are older than the node,
      and a left child is attached to its own right origin. Identities are
      minted above every counter their author has observed, so "older" is
      "with a lower counter". */
  ghost predicate LinkFits(doc: Doc, n: Node) {
    && (n.link.parent.Some? ==>
          Has(doc, n.link.parent.value) && n.link.parent.value.counter < n.id.counter)
    && (n.link.rightOrigin.Some? ==>
          Has(doc, n.link.rightOrigin.value) && n.link.rightOrigin.value.counter < n.id.counter)
    && (n.link.side.Left? ==> n.link.parent.Some? && n.link.rightOrigin == n.link.parent)
  }

  ghost predicate Linked(doc: Doc) {
    Distinct(doc) && forall i :: 0 <= i < |doc| ==> LinkFits(doc, doc[i])
  }

  /** List position of the right origin; the end of the list sorts last. Left
      children share one rank, so that identity alone orders them. */
  ghost function RankOf(doc: Doc, link: Link): int
    requires link.rightOrigin.Some? ==> Has(doc, link.rightOrigin.value)
  {
    if link.side.Left? then -1
    else if link.rightOrigin.None? then |doc| + 1
    else Index(doc, link.rightOrigin.value)
  }

  ghost function KeyOf(doc: Doc, n: Node): Key
    requires LinkFits(doc, n)
  {
    Key(n.link.side, RankOf(doc, n.link), n.id)
  }

  /** The keys from the root down to item `id`. */
  ghost function Path(doc: Doc, id: Identity): (p: seq<Key>)
    requires Linked(doc) && Has(doc, id)
    ensures p != [] && p[|p| - 1].id == id
    decreases id.counter
  {
    PathUnder(doc, doc[Index(doc, id)].link.parent, id.counter) + [KeyOf(doc, doc[Index(doc, id)])]
  }

  /** The path of a parent, the root's being empty. */
  ghost function PathUnder(doc: Doc, parent: Option<Identity>, bound: nat): seq<Key>
    requires Linked(doc)
    requires parent.Some? ==> Has(doc, parent.value) && parent.value.counter < bound
    decreases bound, 0
  {
    if parent.None? then [] else Path(doc, parent.value)
  }

  /** The path a node has, or would have once it is part of the document. */
  ghost function NodePath(doc: Doc, n: Node): seq<Key>
    requires Linked(doc) && LinkFits(doc, n)
  {
    PathUnder(doc, n.link.parent, n.id.counter) + [KeyOf(doc, n)]
  }

  ghost predicate Before(doc: Doc, x: Identity, y: Identity)
    requires Linked(doc) && Has(doc, x) && Has(doc, y)
  {
    PathLess(Path(doc, x), Path(doc, y))
  }

  /** The document is the in-order traversal of the tree its links span. */
  ghost predicate Ordered(doc: Doc)
    requires Linked(doc)
  {
    forall i, j :: 0 <= i < j < |doc| ==> Before(doc, doc[i].id, doc[j].id)
  }

  ghost predicate Valid(doc: Doc) {
    Linked(doc) && Ordered(doc)
  }

  // ---- Insertion ---------------------------------------------------------

  function InsertAt(doc: Doc, p: nat, n: Node): Doc
    requires p <= |doc|
  {
    doc[..p] + [n] + doc[p..]
  }

  /** Every list position at or after `p` moves one to the right. */
  function ShiftRank(r: int, p: nat): int {
    if r < p then r else r + 1
  }

  function Shift(path: seq<Key>, p: nat): (r: seq<Key>)
    ensures |r| == |path|
  {
    seq(|path|, i requires 0 <= i < |path| => path[i].(rank := ShiftRank(path[i].rank, p)))
  }

  lemma ShiftKeepsOrder(a: seq<Key>, b: seq<Key>, p: nat)
    ensures PathLess(Shift(a, p), Shift(b, p)) == PathLess(a, b)
  {
    if a != [] && b != [] {
      assert Shift(a, p)[1..] == Shift(a[1..], p);
      assert Shift(b, p)[1..] == Shift(b[1..], p);
      ShiftKeepsOrder(a[1..], b[1..], p);
      assert Shift(a, p)[0] == Shift(b, p)[0] <==> a[0] == b[0];
    }
  }

  lemma ShiftConcat(a: seq<Key>, b: seq<Key>, p: nat)
    ensures Shift(a + b, p) == Shift(a, p) + Shift(b, p)
  {
  }

  lemma InsertAtItems(doc: Doc, p: nat, n: Node)
    requires p <= |doc|
    ensures |InsertAt(doc, p, n)| == |doc| + 1 && InsertAt(doc, p, n)[p] == n
    ensures forall i :: 0 <= i < p ==> InsertAt(doc, p, n)[i] == doc[i]
    ensures forall i :: p < i <= |doc| ==> InsertAt(doc, p, n)[i] == doc[i - 1]
  {
  }

  lemma InsertDistinct(doc: Doc, p: nat, n: Node)
    requires p <= |doc| && Distinct(doc) && !Has(doc, n.id)
    ensures Distinct(InsertAt(doc, p, n))
  {
    var doc' := InsertAt(doc, p, n);
    InsertAtItems(doc, p, n);
    forall i, j | 0 <= i < j < |doc'|
      ensures doc'[i].id != doc'[j].id
    {
      var oi := if i < p then i else i - 1;
      var oj := if j < p then j else j - 1;
      if i != p && j != p {
        assert doc[oi].id != doc[oj].id;
      }
    }
  }

  /** Insertion keeps every present item, adds one and moves later positions. */
  lemma InsertIndex(doc: Doc, p: nat, n: Node, id: Identity)
    requires p <= |doc| && Distinct(doc) && !Has(doc, n.id)
    ensures Distinct(InsertAt(doc, p, n))
    ensures Has(InsertAt(doc, p, n), n.id) && Index(InsertAt(doc, p, n), n.id) == p
    ensures Has(doc, id) ==> Has(InsertAt(doc, p, n), id)
                             && Index(InsertAt(doc, p, n), id) == ShiftRank(Index(doc, id), p)
    ensures Has(InsertAt(doc, p, n), id) ==> Has(doc, id) || id == n.id
  {
    var doc' := InsertAt(doc, p, n);
    InsertAtItems(doc, p, n);
    InsertDistinct(doc, p, n);
    IndexIs(doc', p);
    if Has(doc, id) {
      IndexIs(doc', ShiftRank(Index(doc, id), p));
    }
  }

  lemma InsertLinkFits(doc: Doc, p: nat, n: Node, m: Node)
    requires p <= |doc| && Distinct(doc) && !Has(doc, n.id) && LinkFits(doc, m)
    ensures LinkFits(InsertAt(doc, p, n), m)
    ensures KeyOf(InsertAt(doc, p, n), m) == Shift([KeyOf(doc, m)], p)[0]
  {
    if m.link.parent.Some? { InsertIndex(doc, p, n, m.link.parent.value); }
    if m.link.rightOrigin.Some? { InsertIndex(doc, p, n, m.link.rightOrigin.value); }
  }

  lemma InsertLinked(doc: Doc, p: nat, n: Node)
    requires p <= |doc| && Linked(doc) && !Has(doc, n.id) && LinkFits(doc, n)
    ensures Linked(InsertAt(doc, p, n))
  {
    var doc' := InsertAt(doc, p, n);
    InsertIndex(doc, p, n, n.id);
    forall i | 0 <= i < |doc'|
      ensures LinkFits(doc', doc'[i])
    {
      if i == p { InsertLinkFits(doc, p, n, n); }
      else { InsertLinkFits(doc, p, n, doc[if i < p then i else i - 1]); }
    }
  }

  /** Paths of present items survive an insertion up to the shift of positions. */
  lemma {:induction false} InsertPath(doc: Doc, p: nat, n: Node, id: Identity)
    requires p <= |doc| && Linked(doc) && !Has(doc, n.id) && LinkFits(doc, n) && Has(doc, id)
    ensures Linked(InsertAt(doc, p, n)) && Has(InsertAt(doc, p, n), id)
    ensures Path(InsertAt(doc, p, n), id) == Shift(Path(doc, id), p)
    decreases id.counter
  {
    var doc' := InsertAt(doc, p, n);
    InsertLinked(doc, p, n);
    InsertIndex(doc, p, n, id);
    var m := doc[Index(doc, id)];
    assert doc'[Index(doc', id)] == m;
    InsertLinkFits(doc, p, n, m);
    if m.link.parent.Some? {
      InsertPath(doc, p, n, m.link.parent.value);
    }
    ShiftConcat(PathUnder(doc, m.link.parent, id.counter), [KeyOf(doc, m)], p);
  }

  lemma InsertNodePath(doc: Doc, p: nat, n: Node)
    requires p <= |doc| && Linked(doc) && !Has(doc, n.id) && LinkFits(doc, n)
    ensures Linked(InsertAt(doc, p, n)) && Has(InsertAt(doc, p, n), n.id)
    ensures Path(InsertAt(doc, p, n), n.id) == Shift(NodePath(doc, n), p)
  {
    var doc' := InsertAt(doc, p, n);
    InsertLinked(doc, p, n);
    InsertIndex(doc, p, n, n.id);
    assert doc'[Index(doc', n.id)] == n;
    InsertLinkFits(doc, p, n, n);
    if n.link.parent.Some? {
      InsertPath(doc, p, n, n.link.parent.value);
    }
    ShiftConcat(PathUnder(doc, n.link.parent, n.id.counter), [KeyOf(doc, n)], p);
  }

  /** `p` is where the links put `n`: after exactly the items before it. */
  ghost predicate Belongs(doc: Doc, p: nat, n: Node)
    requires Linked(doc) && LinkFits(doc, n)
  {
    && p <= |doc|
    && (forall i :: 0 <= i < p ==> PathLess(Path(doc, doc[i].id), NodePath(doc, n)))
    && (forall i :: p <= i < |doc| ==> PathLess(NodePath(doc, n), Path(doc, doc[i].id)))
  }

  /** How the inserted node compares with the items already there. */
  lemma InsertCompare(doc: Doc, p: nat, n: Node, id: Identity)
    requires p <= |doc| && Linked(doc) && !Has(doc, n.id) && LinkFits(doc, n) && Has(doc, id)
    ensures Linked(InsertAt(doc, p, n))
    ensures Has(InsertAt(doc, p, n), n.id) && Has(InsertAt(doc, p, n), id)
    ensures Before(InsertAt(doc, p, n), id, n.id) == PathLess(Path(doc, id), NodePath(doc, n))
    ensures Before(InsertAt(doc, p, n), n.id, id) == PathLess(NodePath(doc, n), Path(doc, id))
  {
    InsertNodePath(doc, p, n);
    InsertPath(doc, p, n, id);
    ShiftKeepsOrder(Path(doc, id), NodePath(doc, n), p);
    ShiftKeepsOrder(NodePath(doc, n), Path(doc, id), p);
  }

  /** Items already there compare as before. */
  lemma InsertKeepsBefore(doc: Doc, p: nat, n: Node, x: Identity, y: Identity)
    requires p <= |doc| && Linked(doc) && !Has(doc, n.id) && LinkFits(doc, n) && Has(doc, x) && Has(doc, y)
    ensures Linked(InsertAt(doc, p, n))
    ensures Has(InsertAt(doc, p, n), x) && Has(InsertAt(doc, p, n), y)
    ensures Before(InsertAt(doc, p, n), x, y) == Before(doc, x, y)
  {
    InsertPath(doc, p, n, x);
    InsertPath(doc, p, n, y);
    ShiftKeepsOrder(Path(doc, x), Path(doc, y), p);
  }

  lemma HasItem(doc: Doc, i: nat)
    requires i < |doc|
    ensures Has(doc, doc[i].id)
  {
  }

  /** Inserting a node keeps the document ordered exactly when it goes where it
      belongs. */
  lemma InsertValid(doc: Doc, p: nat, n: Node)
    requires Valid(doc) && p <= |doc| && !Has(doc, n.id) && LinkFits(doc, n)
    ensures Valid(InsertAt(doc, p, n)) <==> Belongs(doc, p, n)
  {
    var doc' := InsertAt(doc, p, n);
    InsertLinked(doc, p, n);
    InsertAtItems(doc, p, n);
    if Belongs(doc, p, n) {
      InsertOrdered(doc, p, n);
    }
    if Ordered(doc') {
      forall i | 0 <= i < |doc|
        ensures if i < p then PathLess(Path(doc, doc[i].id), NodePath(doc, n))
                else PathLess(NodePath(doc, n), Path(doc, doc[i].id))
      {
        HasItem(doc, i);
        InsertCompare(doc, p, n, doc[i].id);
        var k := if i < p then i else i + 1;
        assert doc'[k] == doc[i] && doc'[p] == n;
        if i < p {
          assert Before(doc', doc'[k].id, doc'[p].id);
        } else {
          assert Before(doc', doc'[p].id, doc'[k].id);
        }
      }
    }
  }

  lemma InsertOrdered(doc: Doc, p: nat, n: Node)
    requires Valid(doc) && p <= |doc| && !Has(doc, n.id) && LinkFits(doc, n)
    requires Belongs(doc, p, n)
    ensures Valid(InsertAt(doc, p, n))
  {
    var doc' := InsertAt(doc, p, n);
    InsertLinked(doc, p, n);
    InsertAtItems(doc, p, n);
    forall i, j | 0 <= i < j < |doc'|
      ensures Before(doc', doc'[i].id, doc'[j].id)
    {
      InsertOrderedPair(doc, p, n, i, j);
    }
  }

  lemma InsertOrderedPair(doc: Doc, p: nat, n: Node, i: nat, j: nat)
    requires Valid(doc) && p <= |doc| && !Has(doc, n.id) && LinkFits(doc, n)
    requires Belongs(doc, p, n) && i < j <= |doc|
    ensures Linked(InsertAt(doc, p, n))
    ensures Before(InsertAt(doc, p, n), InsertAt(doc, p, n)[i].id, InsertAt(doc, p, n)[j].id)
  {
    InsertLinked(doc, p, n);
    InsertAtItems(doc, p, n);
    var oi := if i < p then i else i - 1;
    var oj := if j < p then j else j - 1;
    if i == p {
      HasItem(doc, oj);
      InsertCompare(doc, p, n, doc[oj].id);
    } else if j == p {
      HasItem(doc, oi);
      InsertCompare(doc, p, n, doc[oi].id);
    } else {
      HasItem(doc, oi);
      HasItem(doc, oj);
      assert Before(doc, doc[oi].id, doc[oj].id);
      InsertKeepsBefore(doc, p, n, doc[oi].id, doc[oj].id);
    }
  }

  lemma BelongsOnce(doc: Doc, p: nat, q: nat, n: Node)
    requires Linked(doc) && LinkFits(doc, n) && Belongs(doc, p, n) && Belongs(doc, q, n)
    ensures p == q
  {
    if p < q {
      PathLessTotal(Path(doc, doc[p].id), NodePath(doc, n));
    } else if q < p {
      PathLessTotal(Path(doc, doc[q].id), NodePath(doc, n));
    }
  }

  /** Where the links put `n`: the number of items that come before it. */
  ghost function Place(doc: Doc, n: Node): (p: nat)
    requires Valid(doc) && LinkFits(doc, n) && !Has(doc, n.id)
    ensures Belongs(doc, p, n)
  {
    var p := PlaceFrom(doc, n, |doc|);
    p
  }

  /** Scan left from `q` while everything at or after `q` comes after `n`. */
  ghost function PlaceFrom(doc: Doc, n: Node, q: nat): (p: nat)
    requires Valid(doc) && LinkFits(doc, n) && !Has(doc, n.id) && q <= |doc|
    requires forall i :: q <= i < |doc| ==> PathLess(NodePath(doc, n), Path(doc, doc[i].id))
    ensures Belongs(doc, p, n)
  {
    if q == 0 then 0
    else
      HasItem(doc, q - 1);
      PathEndsDiffer(doc, n, doc[q - 1].id);
      PathLessTotal(Path(doc, doc[q - 1].id), NodePath(doc, n));
      if PathLess(Path(doc, doc[q - 1].id), NodePath(doc, n)) then
        EarlierIsLess(doc, n, q);
        q
      else
        PlaceFrom(doc, n, q - 1)
  }

  lemma PathEndsDiffer(doc: Doc, n: Node, id: Identity)
    requires Linked(doc) && LinkFits(doc, n) && !Has(doc, n.id) && Has(doc, id)
    ensures Path(doc, id) != NodePath(doc, n)
  {
    var a, b := Path(doc, id), NodePath(doc, n);
    assert a[|a| - 1].id == id && b[|b| - 1].id == n.id;
  }

  lemma EarlierIsLess(doc: Doc, n: Node, q: nat)
    requires Valid(doc) && LinkFits(doc, n) && 0 < q <= |doc|
    requires PathLess(Path(doc, doc[q - 1].id), NodePath(doc, n))
    ensures forall i :: 0 <= i < q ==> PathLess(Path(doc, doc[i].id), NodePath(doc, n))
  {
    forall i | 0 <= i < q
      ensures PathLess(Path(doc, doc[i].id), NodePath(doc, n))
    {
      if i < q - 1 {
        assert Before(doc, doc[i].id, doc[q - 1].id);
        PathLessTransitive(Path(doc, doc[i].id), Path(doc, doc[q - 1].id), NodePath(doc, n));
      }
    }
  }

  lemma LaterIsGreater(doc: Doc, n: Node, q: nat)
    requires Valid(doc) && LinkFits(doc, n) && q < |doc|
    requires PathLess(NodePath(doc, n), Path(doc, doc[q].id))
    ensures forall i :: q <= i < |doc| ==> PathLess(NodePath(doc, n), Path(doc, doc[i].id))
  {
    forall i | q <= i < |doc|
      ensures PathLess(NodePath(doc, n), Path(doc, doc[i].id))
    {
      if q < i {
        assert Before(doc, doc[q].id, doc[i].id);
        PathLessTransitive(NodePath(doc, n), Path(doc, doc[q].id), Path(doc, doc[i].id));
      }
    }
  }

  /** Put a node where its link says. */
  ghost function Integrate(doc: Doc, n: Node): (r: Doc)
    requires Valid(doc) && LinkFits(doc, n) && !Has(doc, n.id)
    ensures Valid(r) && |r| == |doc| + 1
  {
    InsertOrdered(doc, Place(doc, n), n);
    InsertAt(doc, Place(doc, n), n)
  }

  // ---- Ancestry ----------------------------------------------------------

  ghost function ParentOf(doc: Doc, id: Identity): (p: Option<Identity>)
    requires Linked(doc) && Has(doc, id)
    ensures p.Some? ==> Has(doc, p.value) && p.value.counter < id.counter
  {
    doc[Index(doc, id)].link.parent
  }

  /** The ancestor-or-self of `id` that is a direct child of `ancestor` (of the
      root when empty), or nothing when `id` is not strictly under it. */
  ghost function TopChild(doc: Doc, id: Identity, ancestor: Option<Identity>): (c: Option<Identity>)
    requires Linked(doc) && Has(doc, id)
    ensures c.Some? ==> Has(doc, c.value) && ParentOf(doc, c.value) == ancestor && c.value.counter <= id.counter
    decreases id.counter
  {
    var parent := ParentOf(doc, id);
    if parent == ancestor then Some(id)
    else if parent.None? then None
    else TopChild(doc, parent.value, ancestor)
  }

  ghost predicate Under(doc: Doc, id: Identity, ancestor: Option<Identity>)
    requires Linked(doc) && Has(doc, id)
  {
    TopChild(doc, id, ancestor).Some?
  }

  ghost function PathOf(doc: Doc, at: Option<Identity>): seq<Key>
    requires Linked(doc) && (at.Some? ==> Has(doc, at.value))
  {
    if at.None? then [] else Path(doc, at.value)
  }

  lemma PathStep(doc: Doc, id: Identity)
    requires Linked(doc) && Has(doc, id)
    ensures Path(doc, id) == PathOf(doc, ParentOf(doc, id)) + [KeyOf(doc, doc[Index(doc, id)])]
  {
  }

  /** Every prefix of a path is the path of an ancestor: the identities agree. */
  lemma {:induction false} PrefixIsAncestor(doc: Doc, id: Identity, a: Identity)
    requires Linked(doc) && Has(doc, id) && Has(doc, a)
    requires Path(doc, a) <= Path(doc, id)
    ensures id == a || Under(doc, id, Some(a))
    decreases id.counter
  {
    PathStep(doc, id);
    if id != a {
      var parent := ParentOf(doc, id);
      var up := PathOf(doc, parent);
      assert |Path(doc, a)| <= |up| by {
        var p := Path(doc, id);
        assert p[|p| - 1].id == id && Path(doc, a)[|Path(doc, a)| - 1].id == a;
      }
      assert Path(doc, a) <= up;
      PrefixIsAncestor(doc, parent.value, a);
    }
  }

  /** Conversely the path of an ancestor's child is a prefix of the path. */
  lemma {:induction false} TopChildPath(doc: Doc, id: Identity, ancestor: Option<Identity>)
    requires Linked(doc) && Has(doc, id) && (ancestor.Some? ==> Has(doc, ancestor.value))
    requires Under(doc, id, ancestor)
    ensures Path(doc, TopChild(doc, id, ancestor).value) <= Path(doc, id)
    ensures Path(doc, TopChild(doc, id, ancestor).value)
            == PathOf(doc, ancestor) + [KeyOf(doc, doc[Index(doc, TopChild(doc, id, ancestor).value)])]
    ensures PathOf(doc, ancestor) < Path(doc, id)
    decreases id.counter
  {
    PathStep(doc, id);
    var parent := ParentOf(doc, id);
    if parent != ancestor {
      TopChildPath(doc, parent.value, ancestor);
    }
  }

  /** A node strictly outside the parent's subtree compares with a new child of
      that parent as it compares with the parent. */
  lemma CompareOutside(doc: Doc, z: Identity, n: Node)
    requires Linked(doc) && LinkFits(doc, n) && n.link.parent.Some?
    requires Has(doc, z) && z != n.link.parent.value && !Under(doc, z, n.link.parent)
    ensures PathLess(Path(doc, z), NodePath(doc, n)) == Before(doc, z, n.link.parent.value)
    ensures PathLess(NodePath(doc, n), Path(doc, z)) == Before(doc, n.link.parent.value, z)
  {
    var p := n.link.parent.value;
    if Path(doc, p) <= Path(doc, z) {
      PrefixIsAncestor(doc, z, p);
    }
    PathLessOutside(Path(doc, z), Path(doc, p), [KeyOf(doc, n)]);
  }

  lemma CompareParent(doc: Doc, n: Node)
    requires Linked(doc) && LinkFits(doc, n) && n.link.parent.Some?
    ensures PathLess(Path(doc, n.link.parent.value), NodePath(doc, n)) == n.link.side.Right?
    ensures PathLess(NodePath(doc, n), Path(doc, n.link.parent.value)) == n.link.side.Left?
  {
    var p := Path(doc, n.link.parent.value);
    PathLessUnder(p, [], [KeyOf(doc, n)]);
    PathLessUnder(p, [KeyOf(doc, n)], []);
    assert p + [] == p;
  }

  lemma SplitPath(p: seq<Key>, child: seq<Key>, up: seq<Key>, k: Key)
    requires child <= p && child == up + [k]
    ensures p == up + ([k] + p[|child|..])
  {
  }

  /** A node under a sibling compares with the new node as the sibling does. */
  lemma CompareUnder(doc: Doc, z: Identity, n: Node, c: Identity)
    requires Linked(doc) && LinkFits(doc, n) && !Has(doc, n.id)
    requires Has(doc, z) && TopChild(doc, z, n.link.parent) == Some(c)
    ensures PathLess(Path(doc, z), NodePath(doc, n)) == KeyLess(KeyOf(doc, doc[Index(doc, c)]), KeyOf(doc, n))
    ensures PathLess(NodePath(doc, n), Path(doc, z)) == KeyLess(KeyOf(doc, n), KeyOf(doc, doc[Index(doc, c)]))
  {
    TopChildPath(doc, z, n.link.parent);
    var up := PathOf(doc, n.link.parent);
    var pc := Path(doc, c);
    var rest := Path(doc, z)[|pc|..];
    var kc, kn := KeyOf(doc, doc[Index(doc, c)]), KeyOf(doc, n);
    SplitPath(Path(doc, z), pc, up, kc);
    assert NodePath(doc, n) == up + [kn];
    PathLessUnder(up, [kc] + rest, [kn]);
    PathLessUnder(up, [kn], [kc] + rest);
    assert kc.id == c && kn.id == n.id && kc != kn;
  }

  /** List order and path order are the same thing. */
  lemma BeforeIsIndex(doc: Doc, x: Identity, y: Identity)
    requires Valid(doc) && Has(doc, x) && Has(doc, y)
    ensures Before(doc, x, y) <==> Index(doc, x) < Index(doc, y)
  {
    var i, j := Index(doc, x), Index(doc, y);
    if i < j {
      assert Before(doc, doc[i].id, doc[j].id);
    } else if j < i {
      assert Before(doc, doc[j].id, doc[i].id);
      PathLessTotal(Path(doc, x), Path(doc, y));
    } else {
      PathLessIrreflexive(Path(doc, x));
    }
  }
}
