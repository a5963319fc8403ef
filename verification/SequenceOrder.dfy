/** FugueMax placement over a document-ordered list of runs.

    The methods walk runs, not items: they climb a run at a time, skip whole
    runs and compare positions as (run, offset) pairs. Each is proved against
    the item-level order of `FugueOrder`. */
module SequenceOrder {
  import opened Ids
  import opened FugueOrder
  import opened Fragments
  import opened FugueLaws

  ghost predicate Proper(frags: seq<Fragment>) {
    NonEmptyRuns(frags) && Linked(DocOf(frags))
  }

  function IdAt(frags: seq<Fragment>, p: Pos): Identity
    requires InRun(frags, p)
  {
    ItemAt(frags[p.frag], p.off)
  }

  predicate Contains(f: Fragment, id: Identity) {
    id.actor == f.origin.actor && f.origin.counter <= id.counter < f.origin.counter + Length(f)
  }

  /** Position and identity agree between the run list and the document. */
  lemma PosIndex(frags: seq<Fragment>, p: Pos)
    requires Distinct(DocOf(frags)) && InRun(frags, p)
    ensures Has(DocOf(frags), IdAt(frags, p)) && Index(DocOf(frags), IdAt(frags, p)) == Flat(frags, p)
    ensures Flat(frags, p) < |DocOf(frags)|
    ensures DocOf(frags)[Flat(frags, p)] == Node(IdAt(frags, p), LinkAt(frags[p.frag], p.off))
  {
    FlatItem(frags, p);
    IndexIs(DocOf(frags), Flat(frags, p));
  }

  lemma PosParent(frags: seq<Fragment>, p: Pos)
    requires Linked(DocOf(frags)) && InRun(frags, p)
    ensures Has(DocOf(frags), IdAt(frags, p))
    ensures ParentOf(DocOf(frags), IdAt(frags, p)) == LinkAt(frags[p.frag], p.off).parent
  {
    PosIndex(frags, p);
  }

  lemma ContainsHas(frags: seq<Fragment>, i: nat, id: Identity)
    requires i < |frags| && Contains(frags[i], id)
    ensures InRun(frags, Pos(i, id.counter - frags[i].origin.counter))
    ensures IdAt(frags, Pos(i, id.counter - frags[i].origin.counter)) == id
    ensures Has(DocOf(frags), id)
  {
    FlatItem(frags, Pos(i, id.counter - frags[i].origin.counter));
  }

  lemma HasContains(frags: seq<Fragment>, id: Identity)
    requires Has(DocOf(frags), id)
    ensures exists i :: 0 <= i < |frags| && Contains(frags[i], id)
  {
    var p := Unflat(frags, Index(DocOf(frags), id));
    FlatItem(frags, p);
    assert Contains(frags[p.frag], id);
  }

  /** The run holding `id`, with the item's offset in it. */
  method FindItem(frags: seq<Fragment>, id: Identity) returns (at: Option<Pos>)
    ensures at.Some? ==> InRun(frags, at.value) && IdAt(frags, at.value) == id && Has(DocOf(frags), id)
    ensures at.None? ==> !Has(DocOf(frags), id)
  {
    for i := 0 to |frags|
      invariant forall j :: 0 <= j < i ==> !Contains(frags[j], id)
    {
      if Contains(frags[i], id) {
        ContainsHas(frags, i, id);
        return Some(Pos(i, id.counter - frags[i].origin.counter));
      }
    }
    if Has(DocOf(frags), id) {
      HasContains(frags, id);
    }
    return None;
  }

  // ---- Climbing ----------------------------------------------------------

  /** The items of a run are a chain: climbing from one of them meets every
      earlier item of the run before it leaves the run. */
  lemma {:induction false} ClimbRun(frags: seq<Fragment>, p: Pos, ancestor: Option<Identity>)
    requires Linked(DocOf(frags)) && InRun(frags, p)
    ensures Has(DocOf(frags), IdAt(frags, p)) && Has(DocOf(frags), IdAt(frags, Pos(p.frag, 0)))
    ensures if ancestor.Some? && Contains(frags[p.frag], ancestor.value)
               && ancestor.value.counter < frags[p.frag].origin.counter + p.off
            then TopChild(DocOf(frags), IdAt(frags, p), ancestor)
                 == Some(ItemAt(frags[p.frag], ancestor.value.counter - frags[p.frag].origin.counter + 1))
            else TopChild(DocOf(frags), IdAt(frags, p), ancestor)
                 == TopChild(DocOf(frags), IdAt(frags, Pos(p.frag, 0)), ancestor)
    decreases p.off
  {
    hide Linked;
    PosParent(frags, p);
    if p.off > 0 {
      var up := Pos(p.frag, p.off - 1);
      PosParent(frags, up);
      ClimbRun(frags, up, ancestor);
    }
  }

  /** What one climb finds when the ancestor is not an earlier item of the run. */
  lemma ClimbOut(frags: seq<Fragment>, p: Pos, ancestor: Option<Identity>)
    requires Linked(DocOf(frags)) && InRun(frags, p)
    requires !(ancestor.Some? && Contains(frags[p.frag], ancestor.value)
               && ancestor.value.counter < frags[p.frag].origin.counter + p.off)
    ensures Has(DocOf(frags), IdAt(frags, p))
    ensures var parent := frags[p.frag].link.parent;
            if parent == ancestor then
              TopChild(DocOf(frags), IdAt(frags, p), ancestor) == Some(IdAt(frags, Pos(p.frag, 0)))
            else if parent.None? then
              TopChild(DocOf(frags), IdAt(frags, p), ancestor) == None
            else
              && Has(DocOf(frags), parent.value) && parent.value.counter < frags[p.frag].origin.counter
              && TopChild(DocOf(frags), IdAt(frags, p), ancestor) == TopChild(DocOf(frags), parent.value, ancestor)
  {
    ClimbRun(frags, p, ancestor);
    PosParent(frags, Pos(p.frag, 0));
  }

  /** The ancestor-or-self of the item at `x` that is a direct child of
      `ancestor` (the root when empty), or nothing when `x` is not strictly
      under it. Climbs a run at a time and gives up after as many climbs as
      there are runs; with links to older items only that never happens. */
  method TopChildPos(frags: seq<Fragment>, x: Pos, ancestor: Option<Identity>) returns (c: Option<Pos>)
    requires Proper(frags) && InRun(frags, x)
    ensures Has(DocOf(frags), IdAt(frags, x))
    ensures c.Some? ==> InRun(frags, c.value)
    ensures TopChild(DocOf(frags), IdAt(frags, x), ancestor)
            == if c.Some? then Some(IdAt(frags, c.value)) else None
  {
    hide Linked;
    ghost var doc := DocOf(frags);
    PosParent(frags, x);
    var cur := x;
    ghost var left: set<nat> := {};   // the runs climbed out of
    var guard := 0;
    while guard <= |frags| + 1
      invariant InRun(frags, cur) && Has(doc, IdAt(frags, cur))
      invariant TopChild(doc, IdAt(frags, cur), ancestor) == TopChild(doc, IdAt(frags, x), ancestor)
      invariant ClimbedPast(frags, left, IdAt(frags, cur).counter)
      invariant guard == |left| <= |frags|
      decreases |frags| + 2 - guard
    {
      var f := frags[cur.frag];
      if ancestor.Some? && f.origin.actor == ancestor.value.actor
         && f.origin.counter <= ancestor.value.counter < f.origin.counter + cur.off {
        ClimbRun(frags, cur, ancestor);
        return Some(Pos(cur.frag, ancestor.value.counter - f.origin.counter + 1));
      }
      ClimbOut(frags, cur, ancestor);
      if f.link.parent == ancestor {
        return Some(Pos(cur.frag, 0));
      }
      if f.link.parent.None? {
        return None;
      }
      var up := FindItem(frags, f.link.parent.value);
      if up.None? {
        return None;
      }
      ClimbGrows(frags, left, cur, f.link.parent.value.counter);
      left := left + {cur.frag};
      cur := up.value;
      guard := guard + 1;
    }
    assert false;
    return None;
  }

  /** All runs climbed out of start later than the item reached. */
  ghost predicate ClimbedPast(frags: seq<Fragment>, left: set<nat>, counter: nat) {
    forall r :: r in left ==> r < |frags| && counter < frags[r].origin.counter
  }

  /** No run is climbed out of twice. */
  lemma ClimbGrows(frags: seq<Fragment>, left: set<nat>, cur: Pos, up: nat)
    requires InRun(frags, cur) && ClimbedPast(frags, left, IdAt(frags, cur).counter)
    requires up < frags[cur.frag].origin.counter
    ensures ClimbedPast(frags, left + {cur.frag}, up)
    ensures |left + {cur.frag}| == |left| + 1 <= |frags|
  {
    assert cur.frag !in left;
    SmallSet(left + {cur.frag}, |frags|);
  }

  lemma SmallSet(s: set<nat>, n: nat)
    requires forall r :: r in s ==> r < n
    ensures |s| <= n
  {
    if n == 0 {
      assert s == {};
    } else {
      SmallSet(s - {n - 1}, n - 1);
    }
  }

  /** Item `z` is `c` or strictly under it. */
  ghost predicate AtOrUnder(doc: Doc, z: Identity, c: Identity)
    requires Linked(doc) && Has(doc, z)
  {
    z == c || Under(doc, z, Some(c))
  }

  /** Once an item is in a subtree, so is every later item of its run. */
  lemma RunStaysUnder(frags: seq<Fragment>, p: Pos, q: Pos, root: Identity)
    requires Linked(DocOf(frags)) && InRun(frags, p) && InRun(frags, q)
    requires p.frag == q.frag && p.off <= q.off
    requires Has(DocOf(frags), IdAt(frags, p)) && AtOrUnder(DocOf(frags), IdAt(frags, p), root)
    ensures Has(DocOf(frags), IdAt(frags, q)) && AtOrUnder(DocOf(frags), IdAt(frags, q), root)
  {
    ClimbRun(frags, p, Some(root));
    ClimbRun(frags, q, Some(root));
  }

  /** First position at or after `from` that is neither `root` nor under it. */
  method SkipSubtree(frags: seq<Fragment>, from: Pos, root: Identity) returns (pos: Pos)
    requires Proper(frags) && InRunOrEnd(frags, from)
    ensures InRunOrEnd(frags, pos) && Flat(frags, from) <= Flat(frags, pos) <= |DocOf(frags)|
    ensures pos == from || pos.off == 0
    ensures forall i :: Flat(frags, from) <= i < Flat(frags, pos) ==>
              AtOrUnder(DocOf(frags), DocOf(frags)[i].id, root)
    ensures InRun(frags, pos) ==> Has(DocOf(frags), IdAt(frags, pos))
                                  && !AtOrUnder(DocOf(frags), IdAt(frags, pos), root)
  {
    ghost var doc := DocOf(frags);
    pos := from;
    FlatEnd(frags, pos);
    while pos.frag < |frags|
      invariant InRunOrEnd(frags, pos) && Flat(frags, from) <= Flat(frags, pos) <= |doc|
      invariant pos == from || pos.off == 0
      invariant forall i :: Flat(frags, from) <= i < Flat(frags, pos) ==> AtOrUnder(doc, doc[i].id, root)
      decreases |frags| - pos.frag
    {
      PosParent(frags, pos);
      var under := IdAt(frags, pos) == root;
      if !under {
        var top := TopChildPos(frags, pos, Some(root));
        under := top.Some?;
      }
      if !under { return; }
      RestOfRunUnder(frags, pos, root);
      pos := Pos(pos.frag + 1, 0);
      FlatEnd(frags, pos);
    }
  }

  lemma RestOfRunUnder(frags: seq<Fragment>, p: Pos, root: Identity)
    requires Proper(frags) && InRun(frags, p)
    requires Has(DocOf(frags), IdAt(frags, p)) && AtOrUnder(DocOf(frags), IdAt(frags, p), root)
    ensures Flat(frags, p) < Flat(frags, Pos(p.frag + 1, 0)) <= |DocOf(frags)|
    ensures forall i :: Flat(frags, p) <= i < Flat(frags, Pos(p.frag + 1, 0)) ==>
              AtOrUnder(DocOf(frags), DocOf(frags)[i].id, root)
  {
    StartStep(frags, p.frag);
    FlatEnd(frags, Pos(p.frag + 1, 0));
    forall i | Flat(frags, p) <= i < Flat(frags, Pos(p.frag + 1, 0))
      ensures AtOrUnder(DocOf(frags), DocOf(frags)[i].id, root)
    {
      var q := Pos(p.frag, p.off + (i - Flat(frags, p)));
      PosIndex(frags, q);
      RunStaysUnder(frags, p, q, root);
    }
  }

  /** Where a right origin sits in list order; the end of the list sorts last. */
  method Rank(frags: seq<Fragment>, rightOrigin: Option<Identity>) returns (r: Option<Pos>)
    ensures r.Some? ==> RankIs(frags, rightOrigin, r.value)
    ensures r.None? ==> rightOrigin.Some? && !Has(DocOf(frags), rightOrigin.value)
  {
    if rightOrigin.None? {
      return Some(Pos(|frags| + 1, 0));
    }
    r := FindItem(frags, rightOrigin.value);
  }

  ghost predicate RankIs(frags: seq<Fragment>, rightOrigin: Option<Identity>, r: Pos) {
    if rightOrigin.None? then r == Pos(|frags| + 1, 0)
    else InRun(frags, r) && IdAt(frags, r) == rightOrigin.value && Has(DocOf(frags), rightOrigin.value)
  }

  /** Comparing positions of right origins is comparing their ranks. */
  lemma RankAgrees(frags: seq<Fragment>, a: Option<Identity>, b: Option<Identity>, pa: Pos, pb: Pos)
    requires Proper(frags)
    requires RankIs(frags, a, pa) && RankIs(frags, b, pb)
    ensures PosLess(pa, pb) <==> RankOf(DocOf(frags), Link(None, Right, a)) < RankOf(DocOf(frags), Link(None, Right, b))
    ensures pa == pb <==> RankOf(DocOf(frags), Link(None, Right, a)) == RankOf(DocOf(frags), Link(None, Right, b))
  {
    if a.Some? { PosIndex(frags, pa); }
    if b.Some? { PosIndex(frags, pb); }
    if a.Some? && b.Some? { FlatOrder(frags, pa, pb); }
  }

  // ---- Minting -----------------------------------------------------------

  /** The link for a new element that is to sit immediately after `left` (the
      document start when empty). */
  method MintLink(frags: seq<Fragment>, left: Option<Identity>) returns (link: Link)
    requires Proper(frags) && (left.Some? ==> Has(DocOf(frags), left.value))
    ensures link == FugueLaws.MintLink(DocOf(frags), left)
  {
    ghost var doc := DocOf(frags);
    var after := Pos(0, 0);
    StartEnds(frags);
    if left.Some? {
      var at := FindItem(frags, left.value);
      PosIndex(frags, at.value);
      FlatNext(frags, at.value);
      after := NextPos(frags, at.value);
    }
    assert Flat(frags, after) == After(doc, left);
    FlatEnd(frags, after);
    var right: Option<Identity> := None;
    if after.frag < |frags| {
      PosIndex(frags, after);
      right := Some(IdAt(frags, after));
    }
    var hasRightChild := right.Some?;
    if left.Some? && right.Some? {
      var top := TopChildPos(frags, after, left);
      hasRightChild := top.Some?;
    }
    if left.None? && right.Some? {
      RootHasAll(doc, right.value);
    }
    link := if hasRightChild then Link(right, Left, right) else Link(left, Right, right);
  }

  // ---- Integration -------------------------------------------------------

  function FirstNode(f: Fragment): Node {
    Node(f.origin, f.link)
  }

  /** What an honestly minted run satisfies: it names older items only, and a
      left child names its right origin as parent. */
  predicate NamesOlder(f: Fragment) {
    && (f.link.parent.Some? ==> f.link.parent.value.counter < f.origin.counter)
    && (f.link.rightOrigin.Some? ==> f.link.rightOrigin.value.counter < f.origin.counter)
    && (f.link.side.Left? ==> f.link.rightOrigin == f.link.parent)
  }

  ghost predicate FreshRun(frags: seq<Fragment>, f: Fragment) {
    Fresh(DocOf(frags), NodesOf(ItemsOf(f)))
  }

  /** The run's placement names only items that are in the list. */
  ghost predicate Attaches(doc: Doc, link: Link) {
    && (link.parent.Some? ==> Has(doc, link.parent.value))
    && (link.rightOrigin.Some? ==> Has(doc, link.rightOrigin.value))
    && (link.side.Left? ==> link.parent.Some?)
  }

  lemma RunIsChain(f: Fragment)
    requires Length(f) > 0
    ensures IsChain(NodesOf(ItemsOf(f))) && NodesOf(ItemsOf(f))[0] == FirstNode(f)
  {
  }

  /** What the walk along the children of the run's parent keeps: everything
      passed comes before the run. */
  ghost predicate PassedIsLess(doc: Doc, n: Node, q: nat)
    requires Linked(doc) && LinkFits(doc, n)
  {
    q <= |doc| && forall i :: 0 <= i < q ==> PathLess(Path(doc, doc[i].id), NodePath(doc, n))
  }

  /** Skipping a sibling that comes before the run keeps that. */
  lemma SkippedIsLess(doc: Doc, n: Node, c: Identity, lo: nat, hi: nat)
    requires Valid(doc) && LinkFits(doc, n) && !Has(doc, n.id) && lo <= hi <= |doc|
    requires Has(doc, c) && ParentOf(doc, c) == n.link.parent
    requires KeyLess(KeyOf(doc, doc[Index(doc, c)]), KeyOf(doc, n))
    requires PassedIsLess(doc, n, lo)
    requires forall i :: lo <= i < hi ==> AtOrUnder(doc, doc[i].id, c)
    ensures PassedIsLess(doc, n, hi)
  {
    forall i | lo <= i < hi
      ensures PathLess(Path(doc, doc[i].id), NodePath(doc, n))
    {
      HasItem(doc, i);
      UnderChild(doc, doc[i].id, c, n.link.parent);
      CompareUnder(doc, doc[i].id, n, c);
    }
  }

  /** Stopping: the item reached comes after the run. */
  lemma StopHere(doc: Doc, n: Node, q: nat)
    requires Valid(doc) && LinkFits(doc, n) && !Has(doc, n.id) && PassedIsLess(doc, n, q)
    requires q < |doc| ==> PathLess(NodePath(doc, n), Path(doc, doc[q].id))
    ensures Belongs(doc, q, n)
  {
    if q < |doc| { LaterIsGreater(doc, n, q); }
  }

  /** The end of the parent's right subtrees: what follows is outside. */
  lemma LeftTheSubtree(doc: Doc, n: Node, q: nat)
    requires Valid(doc) && LinkFits(doc, n) && !Has(doc, n.id) && q < |doc| && n.link.side.Right?
    requires n.link.parent.Some? ==> Index(doc, n.link.parent.value) < q
    requires !Under(doc, doc[q].id, n.link.parent)
    ensures PathLess(NodePath(doc, n), Path(doc, doc[q].id))
  {
    HasItem(doc, q);
    IndexIs(doc, q);
    if n.link.parent.None? {
      RootHasAll(doc, doc[q].id);
    } else {
      CompareOutside(doc, doc[q].id, n);
      BeforeIsIndex(doc, n.link.parent.value, doc[q].id);
    }
  }

  /** Right children of `parent`: later right origin first, then lower identity. */
  method PlaceRight(frags: seq<Fragment>, incoming: Fragment) returns (ok: bool, at: Pos)
    requires NonEmptyRuns(frags) && Valid(DocOf(frags))
    requires Length(incoming) > 0 && NamesOlder(incoming) && FreshRun(frags, incoming)
    requires incoming.link.side.Right?
    ensures ok <==> Attaches(DocOf(frags), incoming.link)
    ensures ok ==> InRunOrEnd(frags, at) && LinkFits(DocOf(frags), FirstNode(incoming))
                   && Belongs(DocOf(frags), Flat(frags, at), FirstNode(incoming))
  {
    ghost var doc, n := DocOf(frags), FirstNode(incoming);
    RunIsChain(incoming);
    var link := incoming.link;
    at := Pos(0, 0);
    StartEnds(frags);
    if link.parent.Some? {
      var parent := FindItem(frags, link.parent.value);
      if parent.None? { return false, at; }
      PosIndex(frags, parent.value);
      FlatNext(frags, parent.value);
      at := NextPos(frags, parent.value);
    }
    var mine := Rank(frags, link.rightOrigin);
    if mine.None? { return false, at; }
    assert LinkFits(doc, n);
    if link.parent.Some? {
      CompareParent(doc, n);
      EarlierIsLess(doc, n, Flat(frags, at));
    }
    at := WalkRight(frags, incoming, at, mine.value);
    ok := true;
  }

  /** The right children of the parent are consecutive subtrees right after it:
      walk them, stopping before the first one the run precedes. */
  method WalkRight(frags: seq<Fragment>, incoming: Fragment, from: Pos, mine: Pos) returns (at: Pos)
    requires NonEmptyRuns(frags) && Valid(DocOf(frags)) && InRunOrEnd(frags, from)
    requires LinkFits(DocOf(frags), FirstNode(incoming)) && !Has(DocOf(frags), incoming.origin)
    requires incoming.link.side.Right? && RankIs(frags, incoming.link.rightOrigin, mine)
    requires PassedIsLess(DocOf(frags), FirstNode(incoming), Flat(frags, from))
    requires incoming.link.parent.Some? ==> Index(DocOf(frags), incoming.link.parent.value) < Flat(frags, from)
    ensures InRunOrEnd(frags, at) && Belongs(DocOf(frags), Flat(frags, at), FirstNode(incoming))
  {
    ghost var doc, n := DocOf(frags), FirstNode(incoming);
    at := from;
    while at.frag < |frags|
      invariant InRunOrEnd(frags, at) && Flat(frags, from) <= Flat(frags, at)
      invariant PassedIsLess(doc, n, Flat(frags, at))
      decreases |doc| - Flat(frags, at)
    {
      PosIndex(frags, at);
      var child := TopChildPos(frags, at, incoming.link.parent);
      if child.None? {
        LeftTheSubtree(doc, n, Flat(frags, at));
        break;
      }
      var c := IdAt(frags, child.value);
      var childLink := LinkAt(frags[child.value.frag], child.value.off);
      SiblingLinked(frags, at, child.value, incoming.link.parent);
      var theirs := Rank(frags, childLink.rightOrigin);
      var before := PosLess(theirs.value, mine)
                    || (mine == theirs.value && IdLess(incoming.origin, c));
      DecideRight(frags, incoming, at, child.value, mine, theirs.value);
      if before { break; }
      var next := SkipSubtree(frags, at, c);
      FlatOrder(frags, at, next);
      SkippedIsLess(doc, n, c, Flat(frags, at), Flat(frags, next));
      at := next;
    }
    FlatEnd(frags, at);
    StopHere(doc, n, Flat(frags, at));
  }

  lemma SiblingLinked(frags: seq<Fragment>, at: Pos, child: Pos, parent: Option<Identity>)
    requires Proper(frags) && InRun(frags, at) && InRun(frags, child)
    requires Has(DocOf(frags), IdAt(frags, at))
    requires TopChild(DocOf(frags), IdAt(frags, at), parent) == Some(IdAt(frags, child))
    ensures Has(DocOf(frags), IdAt(frags, child)) && ParentOf(DocOf(frags), IdAt(frags, child)) == parent
    ensures AtOrUnder(DocOf(frags), IdAt(frags, at), IdAt(frags, child))
    ensures var ro := LinkAt(frags[child.frag], child.off).rightOrigin;
            ro.Some? ==> Has(DocOf(frags), ro.value)
  {
    PosIndex(frags, child);
    assert LinkFits(DocOf(frags), DocOf(frags)[Flat(frags, child)]);
    UnderIsAtOrUnder(DocOf(frags), IdAt(frags, at), IdAt(frags, child), parent);
  }

  /** The comparison of positions decides as the order of sibling keys does. */
  lemma DecideRight(frags: seq<Fragment>, incoming: Fragment, at: Pos, child: Pos, mine: Pos, theirs: Pos)
    requires NonEmptyRuns(frags) && Valid(DocOf(frags)) && InRun(frags, at) && InRun(frags, child)
    requires LinkFits(DocOf(frags), FirstNode(incoming)) && !Has(DocOf(frags), incoming.origin)
    requires incoming.link.side.Right?
    requires incoming.link.parent.Some? ==> Index(DocOf(frags), incoming.link.parent.value) < Flat(frags, at)
    requires Has(DocOf(frags), IdAt(frags, at))
    requires TopChild(DocOf(frags), IdAt(frags, at), incoming.link.parent) == Some(IdAt(frags, child))
    requires RankIs(frags, incoming.link.rightOrigin, mine)
    requires RankIs(frags, LinkAt(frags[child.frag], child.off).rightOrigin, theirs)
    ensures Has(DocOf(frags), IdAt(frags, child)) && ParentOf(DocOf(frags), IdAt(frags, child)) == incoming.link.parent
    ensures AtOrUnder(DocOf(frags), IdAt(frags, at), IdAt(frags, child))
    ensures Flat(frags, at) < |DocOf(frags)| && DocOf(frags)[Flat(frags, at)].id == IdAt(frags, at)
    ensures if PosLess(theirs, mine) || (mine == theirs && IdLess(incoming.origin, IdAt(frags, child)))
            then PathLess(NodePath(DocOf(frags), FirstNode(incoming)), Path(DocOf(frags), IdAt(frags, at)))
            else KeyLess(KeyOf(DocOf(frags), DocOf(frags)[Index(DocOf(frags), IdAt(frags, child))]),
                         KeyOf(DocOf(frags), FirstNode(incoming)))
  {
    var doc, n, c := DocOf(frags), FirstNode(incoming), IdAt(frags, child);
    SiblingLinked(frags, at, child, incoming.link.parent);
    PosIndex(frags, at);
    PosIndex(frags, child);
    var m := doc[Flat(frags, child)];
    if incoming.link.parent.Some? {
      ChildSide(doc, IdAt(frags, at), incoming.link.parent.value, c);
    } else {
      assert LinkFits(doc, m);
    }
    assert m.link.side.Right?;
    RankAgrees(frags, incoming.link.rightOrigin, m.link.rightOrigin, mine, theirs);
    RankAgrees(frags, m.link.rightOrigin, incoming.link.rightOrigin, theirs, mine);
    CompareUnder(doc, IdAt(frags, at), n, c);
  }

  lemma UnderIsAtOrUnder(doc: Doc, z: Identity, c: Identity, parent: Option<Identity>)
    requires Linked(doc) && Has(doc, z) && TopChild(doc, z, parent) == Some(c)
    ensures AtOrUnder(doc, z, c)
    decreases z.counter
  {
    var up := ParentOf(doc, z);
    if up != parent {
      UnderIsAtOrUnder(doc, up.value, c, parent);
    }
  }

  // ---- Left children -----------------------------------------------------

  /** A run that ends under `parent`, and does not hold `parent`, is under it. */
  lemma WholeRunUnder(frags: seq<Fragment>, p: Pos, k: nat, parent: Identity)
    requires Linked(DocOf(frags)) && InRun(frags, p) && k <= p.off
    requires !Contains(frags[p.frag], parent)
    requires Has(DocOf(frags), IdAt(frags, p)) && Under(DocOf(frags), IdAt(frags, p), Some(parent))
    ensures Has(DocOf(frags), IdAt(frags, Pos(p.frag, k)))
    ensures Under(DocOf(frags), IdAt(frags, Pos(p.frag, k)), Some(parent))
  {
    ClimbRun(frags, p, Some(parent));
    ClimbRun(frags, Pos(p.frag, k), Some(parent));
  }

  ghost predicate AllUnder(doc: Doc, lo: nat, hi: nat, parent: Identity)
    requires Linked(doc)
  {
    hi <= |doc| && forall i :: lo <= i < hi ==> Under(doc, doc[i].id, Some(parent))
  }

  /** Where the left subtrees of the item at `parent` begin: walks back a run at
      a time while the run before ends under it. */
  method LeftStart(frags: seq<Fragment>, parent: Pos) returns (start: Pos)
    requires NonEmptyRuns(frags) && Valid(DocOf(frags)) && InRun(frags, parent)
    ensures InRun(frags, start) && Flat(frags, start) <= Flat(frags, parent) < |DocOf(frags)|
    ensures start == parent || start.off == 0
    ensures AllUnder(DocOf(frags), Flat(frags, start), Flat(frags, parent), IdAt(frags, parent))
    ensures 0 < Flat(frags, start) ==> !Under(DocOf(frags), DocOf(frags)[Flat(frags, start) - 1].id, Some(IdAt(frags, parent)))
  {
    hide Ordered, AllUnder;
    ghost var doc := DocOf(frags);
    var id := IdAt(frags, parent);
    PosIndex(frags, parent);
    StartEnds(frags);
    NoneUnder(doc, Flat(frags, parent), id);
    start := parent;
    while true
      invariant InRun(frags, start) && Flat(frags, start) <= Flat(frags, parent)
      invariant start == parent || start.off == 0
      invariant AllUnder(doc, Flat(frags, start), Flat(frags, parent), id)
      decreases Flat(frags, start)
    {
      if start == Pos(0, 0) { break; }
      FlatPrev(frags, start);
      var before := PrevPos(frags, start);
      var top := TopChildPos(frags, before, Some(id));
      if top.None? {
        PosIndex(frags, before);
        break;
      }
      BackOneRun(frags, parent, start, before);
      start := Pos(before.frag, 0);
    }
  }

  lemma NoneUnder(doc: Doc, i: nat, id: Identity)
    requires Linked(doc) && i <= |doc|
    ensures AllUnder(doc, i, i, id)
  {
  }

  lemma BackOneRun(frags: seq<Fragment>, parent: Pos, start: Pos, before: Pos)
    requires NonEmptyRuns(frags) && Valid(DocOf(frags)) && InRun(frags, parent) && InRun(frags, before)
    requires InRun(frags, start) && (start == parent || start.off == 0)
    requires Flat(frags, before) + 1 == Flat(frags, start) <= Flat(frags, parent)
    requires AllUnder(DocOf(frags), Flat(frags, start), Flat(frags, parent), IdAt(frags, parent))
    requires Has(DocOf(frags), IdAt(frags, before)) && Under(DocOf(frags), IdAt(frags, before), Some(IdAt(frags, parent)))
    ensures Flat(frags, Pos(before.frag, 0)) < Flat(frags, start)
    ensures AllUnder(DocOf(frags), Flat(frags, Pos(before.frag, 0)), Flat(frags, parent), IdAt(frags, parent))
  {
    var doc, id := DocOf(frags), IdAt(frags, parent);
    PosIndex(frags, parent);
    PosIndex(frags, before);
    ParentNotInRun(frags, parent, before);
    forall i | Flat(frags, Pos(before.frag, 0)) <= i < Flat(frags, start)
      ensures Under(doc, doc[i].id, Some(id))
    {
      var k := i - Start(frags, before.frag);
      PosIndex(frags, Pos(before.frag, k));
      WholeRunUnder(frags, before, k, id);
    }
  }

  lemma ParentNotInRun(frags: seq<Fragment>, parent: Pos, before: Pos)
    requires NonEmptyRuns(frags) && Linked(DocOf(frags)) && InRun(frags, parent) && InRun(frags, before)
    requires Flat(frags, before) < Flat(frags, parent)
    requires Has(DocOf(frags), IdAt(frags, before)) && Under(DocOf(frags), IdAt(frags, before), Some(IdAt(frags, parent)))
    ensures !Contains(frags[before.frag], IdAt(frags, parent))
  {
    var id := IdAt(frags, parent);
    if Contains(frags[before.frag], id) {
      ContainsHas(frags, before.frag, id);
      var q := Pos(before.frag, id.counter - frags[before.frag].origin.counter);
      PosIndex(frags, q);
      PosIndex(frags, parent);
      AncestorIsOlder(DocOf(frags), IdAt(frags, before), id);
    }
  }

  /** A left child goes into the run of left subtrees that ends immediately
      before its parent, ordered by identity. */
  method PlaceLeft(frags: seq<Fragment>, incoming: Fragment) returns (ok: bool, at: Pos)
    requires NonEmptyRuns(frags) && Valid(DocOf(frags))
    requires Length(incoming) > 0 && NamesOlder(incoming) && FreshRun(frags, incoming)
    requires incoming.link.side.Left?
    ensures ok <==> Attaches(DocOf(frags), incoming.link)
    ensures ok ==> InRunOrEnd(frags, at) && LinkFits(DocOf(frags), FirstNode(incoming))
                   && Belongs(DocOf(frags), Flat(frags, at), FirstNode(incoming))
  {
    ghost var doc, n := DocOf(frags), FirstNode(incoming);
    RunIsChain(incoming);
    at := Pos(0, 0);
    if incoming.link.parent.None? { return false, at; }
    var parent := FindItem(frags, incoming.link.parent.value);
    if parent.None? { return false, at; }
    PosIndex(frags, parent.value);
    assert LinkFits(doc, n);
    var start := LeftStart(frags, parent.value);
    BeforeTheSubtree(frags, incoming, parent.value, start);
    at := WalkLeft(frags, incoming, start, parent.value);
    ok := true;
  }

  lemma BeforeTheSubtree(frags: seq<Fragment>, incoming: Fragment, parent: Pos, start: Pos)
    requires NonEmptyRuns(frags) && Valid(DocOf(frags)) && InRun(frags, parent) && InRun(frags, start)
    requires LinkFits(DocOf(frags), FirstNode(incoming)) && !Has(DocOf(frags), incoming.origin)
    requires incoming.link.side.Left? && incoming.link.parent == Some(IdAt(frags, parent))
    requires Flat(frags, start) <= Flat(frags, parent) < |DocOf(frags)|
    requires 0 < Flat(frags, start) ==> !Under(DocOf(frags), DocOf(frags)[Flat(frags, start) - 1].id, Some(IdAt(frags, parent)))
    ensures PassedIsLess(DocOf(frags), FirstNode(incoming), Flat(frags, start))
  {
    var doc, n, q := DocOf(frags), FirstNode(incoming), Flat(frags, start);
    PosIndex(frags, parent);
    if q > 0 {
      HasItem(doc, q - 1);
      IndexIs(doc, q - 1);
      BeforeIsIndex(doc, doc[q - 1].id, IdAt(frags, parent));
      CompareOutside(doc, doc[q - 1].id, n);
      EarlierIsLess(doc, n, q);
    }
  }

  method WalkLeft(frags: seq<Fragment>, incoming: Fragment, start: Pos, parent: Pos) returns (at: Pos)
    requires NonEmptyRuns(frags) && Valid(DocOf(frags)) && InRun(frags, parent) && InRun(frags, start)
    requires LinkFits(DocOf(frags), FirstNode(incoming)) && !Has(DocOf(frags), incoming.origin)
    requires incoming.link.side.Left? && incoming.link.parent == Some(IdAt(frags, parent))
    requires Flat(frags, start) <= Flat(frags, parent) && PassedIsLess(DocOf(frags), FirstNode(incoming), Flat(frags, start))
    requires AllUnder(DocOf(frags), Flat(frags, start), Flat(frags, parent), IdAt(frags, parent))
    ensures InRunOrEnd(frags, at) && Belongs(DocOf(frags), Flat(frags, at), FirstNode(incoming))
  {
    ghost var doc, n := DocOf(frags), FirstNode(incoming);
    PosIndex(frags, parent);
    at := start;
    while at != parent
      invariant InRun(frags, at) && Flat(frags, start) <= Flat(frags, at) <= Flat(frags, parent)
      invariant PassedIsLess(doc, n, Flat(frags, at))
      decreases Flat(frags, parent) - Flat(frags, at)
    {
      FlatOrder(frags, at, parent);
      PosIndex(frags, at);
      var child := TopChildPos(frags, at, incoming.link.parent);
      if child.None? { break; }
      var c := IdAt(frags, child.value);
      DecideLeft(frags, incoming, at, child.value, parent);
      if IdLess(incoming.origin, c) { break; }
      var next := SkipSubtree(frags, at, c);
      FlatOrder(frags, at, next);
      SkippedIsLess(doc, n, c, Flat(frags, at), Flat(frags, next));
      StaysBelowParent(frags, at, next, parent, c);
      at := next;
    }
    PosIndex(frags, at);
    if at == parent { CompareParent(doc, n); }
    StopHere(doc, n, Flat(frags, at));
  }

  lemma DecideLeft(frags: seq<Fragment>, incoming: Fragment, at: Pos, child: Pos, parent: Pos)
    requires NonEmptyRuns(frags) && Valid(DocOf(frags)) && InRun(frags, at) && InRun(frags, child) && InRun(frags, parent)
    requires LinkFits(DocOf(frags), FirstNode(incoming)) && !Has(DocOf(frags), incoming.origin)
    requires incoming.link.side.Left? && incoming.link.parent == Some(IdAt(frags, parent))
    requires Flat(frags, at) < Flat(frags, parent)
    requires Has(DocOf(frags), IdAt(frags, at))
    requires TopChild(DocOf(frags), IdAt(frags, at), incoming.link.parent) == Some(IdAt(frags, child))
    ensures Has(DocOf(frags), IdAt(frags, child)) && ParentOf(DocOf(frags), IdAt(frags, child)) == incoming.link.parent
    ensures AtOrUnder(DocOf(frags), IdAt(frags, at), IdAt(frags, child))
    ensures if IdLess(incoming.origin, IdAt(frags, child))
            then PathLess(NodePath(DocOf(frags), FirstNode(incoming)), Path(DocOf(frags), IdAt(frags, at)))
            else KeyLess(KeyOf(DocOf(frags), DocOf(frags)[Index(DocOf(frags), IdAt(frags, child))]),
                         KeyOf(DocOf(frags), FirstNode(incoming)))
  {
    var doc, n, c := DocOf(frags), FirstNode(incoming), IdAt(frags, child);
    SiblingLinked(frags, at, child, incoming.link.parent);
    PosIndex(frags, at);
    PosIndex(frags, parent);
    PosIndex(frags, child);
    ChildSide(doc, IdAt(frags, at), IdAt(frags, parent), c);
    CompareUnder(doc, IdAt(frags, at), n, c);
  }

  /** The parent is not under its own child, so skipping stops at or before it. */
  lemma StaysBelowParent(frags: seq<Fragment>, at: Pos, next: Pos, parent: Pos, c: Identity)
    requires NonEmptyRuns(frags) && Valid(DocOf(frags)) && InRun(frags, parent) && InRun(frags, at) && InRunOrEnd(frags, next)
    requires Flat(frags, at) < Flat(frags, parent) && Flat(frags, next) <= |DocOf(frags)|
    requires Has(DocOf(frags), c) && ParentOf(DocOf(frags), c) == Some(IdAt(frags, parent))
    requires forall i :: Flat(frags, at) <= i < Flat(frags, next) ==> AtOrUnder(DocOf(frags), DocOf(frags)[i].id, c)
    ensures Flat(frags, next) <= Flat(frags, parent) && InRun(frags, next)
  {
    PosIndex(frags, parent);
    FlatEnd(frags, next);
    if Flat(frags, parent) < Flat(frags, next) {
      assert AtOrUnder(DocOf(frags), DocOf(frags)[Flat(frags, parent)].id, c);
      if IdAt(frags, parent) != c {
        AncestorIsOlder(DocOf(frags), IdAt(frags, parent), c);
      }
    }
  }

  // ---- The whole operation -----------------------------------------------

  /** The only safe direct append: a right child with the end as right origin
      whose parent is the final item, or the root of an empty list. */
  predicate AppendsAtEnd(frags: seq<Fragment>, incoming: Fragment) {
    && Length(incoming) > 0
    && incoming.link.side.Right? && incoming.link.rightOrigin.None?
    && (if incoming.link.parent.None? then frags == []
        else && frags != [] && Length(frags[|frags| - 1]) > 0
             && incoming.link.parent.value == ItemAt(frags[|frags| - 1], Length(frags[|frags| - 1]) - 1))
  }

  lemma AppendBelongs(frags: seq<Fragment>, incoming: Fragment)
    requires NonEmptyRuns(frags) && Valid(DocOf(frags)) && NamesOlder(incoming)
    requires AppendsAtEnd(frags, incoming) && !Has(DocOf(frags), incoming.origin)
    ensures LinkFits(DocOf(frags), FirstNode(incoming))
    ensures Belongs(DocOf(frags), |DocOf(frags)|, FirstNode(incoming))
  {
    var doc, n := DocOf(frags), FirstNode(incoming);
    if frags != [] {
      var last := Pos(|frags| - 1, Length(frags[|frags| - 1]) - 1);
      StartStep(frags, |frags| - 1);
      StartEnds(frags);
      PosIndex(frags, last);
      CompareParent(doc, n);
      EarlierIsLess(doc, n, |doc|);
    }
  }

  /** Insert `incoming` at the position its link determines, splitting a run if
      the position falls inside one. Fails, leaving the runs untouched, exactly
      when the link names an item that is not there; otherwise the run's items
      go, together, where the order of the links puts its first item. The
      append shortcut does not change the outcome. */
  method Integrate(frags: seq<Fragment>, incoming: Fragment, allowAppend: bool)
    returns (ok: bool, r: seq<Fragment>)
    requires NonEmptyRuns(frags) && Valid(DocOf(frags))
    requires Length(incoming) > 0 && NamesOlder(incoming) && FreshRun(frags, incoming)
    ensures ok <==> Attaches(DocOf(frags), incoming.link)
    ensures !ok ==> r == frags
    ensures ok ==> && LinkFits(DocOf(frags), FirstNode(incoming)) && !Has(DocOf(frags), incoming.origin)
                   && Items(r) == Splice(Items(frags), Place(DocOf(frags), FirstNode(incoming)), ItemsOf(incoming))
                   && NonEmptyRuns(r) && Valid(DocOf(r))
    ensures ok ==> DelLists(r) <= DelLists(frags) + {incoming.deletions}
  {
    RunIsChain(incoming);
    var at := Pos(|frags|, 0);
    if allowAppend && AppendsAtEnd(frags, incoming) {
      AppendBelongs(frags, incoming);
      StartEnds(frags);
    } else {
      if incoming.link.side.Right? {
        ok, at := PlaceRight(frags, incoming);
      } else {
        ok, at := PlaceLeft(frags, incoming);
      }
      if !ok { return false, frags; }
    }
    ok := true;
    r := InsertRunAt(frags, at, incoming);
    BelongsOnce(DocOf(frags), Flat(frags, at), Place(DocOf(frags), FirstNode(incoming)), FirstNode(incoming));
    SplicedValid(frags, r, Flat(frags, at), incoming);
  }

  /** Insert a run at a position, cutting the run there if need be. */
  method InsertRunAt(frags: seq<Fragment>, at: Pos, incoming: Fragment) returns (r: seq<Fragment>)
    requires NonEmptyRuns(frags) && InRunOrEnd(frags, at) && Length(incoming) > 0
    ensures NonEmptyRuns(r) && Flat(frags, at) <= |Items(frags)|
    ensures Items(r) == Splice(Items(frags), Flat(frags, at), ItemsOf(incoming))
    ensures DelLists(r) <= DelLists(frags) + {incoming.deletions}
  {
    hide Items, ItemsOf, DelLists, Splice, Flat, CutAndInsert, NonEmptyRuns;
    FlatEnd(frags, at);
    InsertedLists(frags, at, incoming);
    InsertedRuns(frags, at, incoming);
    if at.off > 0 {
      r := CutAndInsert(frags, at, incoming);
      InsertInside(frags, at, incoming);
    } else {
      r := frags[..at.frag] + [incoming] + frags[at.frag..];
      InsertBetween(frags, at.frag, incoming);
      FlatIsStart(frags, at);
    }
  }

  lemma FlatIsStart(frags: seq<Fragment>, at: Pos)
    requires at.frag <= |frags| && at.off == 0
    ensures Flat(frags, at) == Start(frags, at.frag)
  {
  }

  lemma InsertedRuns(frags: seq<Fragment>, at: Pos, incoming: Fragment)
    requires NonEmptyRuns(frags) && InRunOrEnd(frags, at) && Length(incoming) > 0
    ensures at.off > 0 ==> NonEmptyRuns(CutAndInsert(frags, at, incoming))
    ensures at.off == 0 ==> NonEmptyRuns(frags[..at.frag] + [incoming] + frags[at.frag..])
  {
  }

  /** Cutting repeats a deletion list, inserting adds that of the run. */
  lemma InsertedLists(frags: seq<Fragment>, at: Pos, incoming: Fragment)
    requires InRunOrEnd(frags, at)
    ensures at.off > 0 ==> DelLists(CutAndInsert(frags, at, incoming)) <= DelLists(frags) + {incoming.deletions}
    ensures at.off == 0 ==> DelLists(frags[..at.frag] + [incoming] + frags[at.frag..]) <= DelLists(frags) + {incoming.deletions}
  {
    hide Items, ItemsOf;
    if at.off > 0 {
      var f := frags[at.frag];
      assert Prefix(f, at.off).deletions == f.deletions && Suffix(f, at.off).deletions == f.deletions;
      forall g | g in CutAndInsert(frags, at, incoming)
        ensures g.deletions in DelLists(frags) || g.deletions == incoming.deletions
      {
        assert g in frags || g == Prefix(f, at.off) || g == Suffix(f, at.off) || g == incoming;
      }
    }
  }

  lemma InsertBetween(frags: seq<Fragment>, i: nat, incoming: Fragment)
    requires i <= |frags|
    ensures Start(frags, i) <= |Items(frags)|
    ensures Items(frags[..i] + [incoming] + frags[i..]) == Splice(Items(frags), Start(frags, i), ItemsOf(incoming))
  {
    hide Items, ItemsOf;
    ItemsConcat(frags[..i] + [incoming], frags[i..]);
    ItemsConcat(frags[..i], [incoming]);
    ItemsSingle(incoming);
    ItemsConcat(frags[..i], frags[i..]);
    assert frags[..i] + frags[i..] == frags;
  }

  lemma InsertInside(frags: seq<Fragment>, at: Pos, incoming: Fragment)
    requires InRun(frags, at) && at.off > 0
    ensures Flat(frags, at) <= |Items(frags)|
    ensures Items(CutAndInsert(frags, at, incoming)) == Splice(Items(frags), Flat(frags, at), ItemsOf(incoming))
  {
    var f := frags[at.frag];
    hide Items, ItemsOf, Prefix, Suffix;
    ItemsReplace(frags, at.frag, [Prefix(f, at.off), incoming, Suffix(f, at.off)]);
    FlatInside(frags, at);
    ItemsTriple(Prefix(f, at.off), incoming, Suffix(f, at.off));
    SplitKeepsItems(f, at.off);
    SpliceInside(Items(frags), Items(CutAndInsert(frags, at, incoming)), Flat(frags, at), Items(frags[..at.frag]),
      ItemsOf(Prefix(f, at.off)), ItemsOf(incoming), ItemsOf(Suffix(f, at.off)), Items(frags[at.frag + 1..]));
  }

  lemma FlatInside(frags: seq<Fragment>, at: Pos)
    requires InRun(frags, at) && at.off > 0
    ensures Flat(frags, at) == |Items(frags[..at.frag])| + |ItemsOf(Prefix(frags[at.frag], at.off))|
  {
  }

  function CutAndInsert(frags: seq<Fragment>, at: Pos, incoming: Fragment): seq<Fragment>
    requires InRun(frags, at) && at.off > 0
  {
    var f := frags[at.frag];
    frags[..at.frag] + [Prefix(f, at.off), incoming, Suffix(f, at.off)] + frags[at.frag + 1..]
  }

  lemma SpliceInside<T>(all: seq<T>, more: seq<T>, q: nat, before: seq<T>, a: seq<T>, x: seq<T>, b: seq<T>, after: seq<T>)
    requires all == before + (a + b) + after && q == |before| + |a|
    requires more == before + (a + x + b) + after
    ensures q <= |all| && more == Splice(all, q, x)
  {
  }

  lemma NodesOfSplice(items: seq<Item>, p: nat, run: seq<Item>)
    requires p <= |items|
    ensures NodesOf(Splice(items, p, run)) == Splice(NodesOf(items), p, NodesOf(run))
  {
  }

  lemma SplicedValid(frags: seq<Fragment>, r: seq<Fragment>, p: nat, incoming: Fragment)
    requires Valid(DocOf(frags)) && Length(incoming) > 0 && FreshRun(frags, incoming)
    requires LinkFits(DocOf(frags), FirstNode(incoming)) && Belongs(DocOf(frags), p, FirstNode(incoming))
    requires Items(r) == Splice(Items(frags), p, ItemsOf(incoming))
    ensures Valid(DocOf(r))
    ensures Nodes(DocOf(r)) == Nodes(DocOf(frags)) + Nodes(NodesOf(ItemsOf(incoming)))
  {
    RunIsChain(incoming);
    NodesOfSplice(Items(frags), p, ItemsOf(incoming));
    SpliceRun(DocOf(frags), p, NodesOf(ItemsOf(incoming)));
  }
}
