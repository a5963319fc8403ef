/** Insertion between retained runs without rebuilding the document.

    The link is decided by one bounded climb of the parent chain. The bound is
    enough for the two neighbours it is asked about, though not for arbitrary
    pairs, and the link puts the new run at exactly the returned rank. */
module MiddleInsertion {
  import opened Ids
  import opened FugueOrder
  import opened FugueLaws
  import opened Fragments
  import opened SequenceOrder
  import opened Indexes
  import opened DeletionRuns
  import opened VisibleText
  import opened LocalPlacement
  import opened LocalEdits

  /** The run and offset of an identity, by the origin index. */
  method Locate(frags: seq<Fragment>, index: RunIndex, id: Identity) returns (at: Option<Pos>)
    requires Coherent(frags, index)
    ensures at.Some? ==> InRun(frags, at.value) && IdAt(frags, at.value) == id
    ensures at.None? ==> !Has(DocOf(frags), id)
  {
    var start := Predecessor(index.origins, id);
    if start.None? || id.counter >= index.origins[start.value].end {
      NotRetained(frags, index, id, start);
      return None;
    }
    RowIsRun(frags, index, start.value);
    var rank := RetainedRank(frags, index, index.origins[start.value].run);
    if rank.None? { return None; }
    RankIsRow(frags, index, Row(start.value, index.origins[start.value]), rank.value);
    return Some(Pos(rank.value, id.counter - start.value.counter));
  }

  lemma {:induction false} NotRetained(frags: seq<Fragment>, index: RunIndex, id: Identity, start: Option<Identity>)
    requires Coherent(frags, index) && IsPredecessor(index.origins, id.actor, id.counter, start)
    requires start.Some? ==> index.origins[start.value].end <= id.counter
    ensures !Has(DocOf(frags), id)
  {
    if Has(DocOf(frags), id) {
      HasContains(frags, id);
      var i :| 0 <= i < |frags| && Contains(frags[i], id);
      Covers(frags, index, id, start, i);
    }
  }

  /** The run that holds an identity is the one that starts last before it. */
  lemma {:induction false} Covers(frags: seq<Fragment>, index: RunIndex, id: Identity, start: Option<Identity>, i: nat)
    requires Coherent(frags, index) && IsPredecessor(index.origins, id.actor, id.counter, start)
    requires i < |frags| && Contains(frags[i], id)
    ensures start.Some? && id.counter < index.origins[start.value].end
  {
    assert frags[i].origin in index.origins;
    var j := RunAt(frags, index, start.value);
    if i != j { RunPairApart(frags, i, j); }
  }

  // ---- The bounded climb -------------------------------------------------

  /** What a climb from `item` keeps: the current item answers for it, and if
      the answer is to be yes, the climb left each run from its first item. */
  ghost predicate Climbing(doc: Doc, frags: seq<Fragment>, item: Identity, ancestor: Identity, cur: Identity, left: set<nat>) {
    && Linked(doc) && Has(doc, item) && Has(doc, cur) && cur != ancestor
    && (Under(doc, item, Some(ancestor)) <==> Under(doc, cur, Some(ancestor)))
    && (Under(doc, item, Some(ancestor)) ==>
          (cur == item || Under(doc, item, Some(cur))) && ClimbedPast(frags, left, cur.counter))
  }

  /** `right` is the item after `left` in the document. */
  ghost predicate Adjacent(doc: Doc, left: Identity, right: Identity) {
    Distinct(doc) && Has(doc, left) && Has(doc, right) && Index(doc, right) == Index(doc, left) + 1
  }

  /** Whether `item` is strictly under `ancestor`: exact for neighbours, and never
      a wrong yes for any other pair. */
  method IsDescendant(frags: seq<Fragment>, index: RunIndex, item: Identity, ancestor: Identity) returns (yes: bool)
    requires NonEmptyRuns(frags) && Valid(DocOf(frags)) && Coherent(frags, index)
    requires Has(DocOf(frags), item) && Has(DocOf(frags), ancestor) && item != ancestor
    ensures yes ==> Under(DocOf(frags), item, Some(ancestor))
    ensures Adjacent(DocOf(frags), ancestor, item) ==> (yes <==> Under(DocOf(frags), item, Some(ancestor)))
  {
    ghost var doc := DocOf(frags);
    var cur := item;
    var depth := 0;
    ghost var left: set<nat> := {};
    while depth < |frags| + 1
      invariant Climbing(doc, frags, item, ancestor, cur, left)
      invariant Adjacent(doc, ancestor, item) && Under(doc, item, Some(ancestor)) ==> depth == |left| <= |frags|
      decreases |frags| + 1 - depth
    {
      if cur.actor == ancestor.actor && cur.counter < ancestor.counter {
        OlderIsNotUnder(doc, cur, ancestor);
        return false;
      }
      var at := Locate(frags, index, cur);
      var f := frags[at.value.frag];
      ClimbRun(frags, at.value, Some(ancestor));
      if Contains(f, ancestor) {
        HolderAnswers(frags, at.value, ancestor);
        return ancestor.counter < cur.counter;
      }
      ClimbOut(frags, at.value, Some(ancestor));
      if at.value.off > 0 {
        InsideIsNotUnder(frags, item, ancestor, at.value, left);
        cur := f.origin;
      } else {
        if f.link.parent.None? { return false; }
        if f.link.parent == Some(ancestor) { return true; }
        ClimbOn(frags, item, ancestor, at.value, left);
        left := left + {at.value.frag};
        cur := f.link.parent.value;
      }
      depth := depth + 1;
    }
    return false;
  }

  lemma {:induction false} OlderIsNotUnder(doc: Doc, cur: Identity, ancestor: Identity)
    requires Linked(doc) && Has(doc, cur) && cur.counter < ancestor.counter
    ensures !Under(doc, cur, Some(ancestor))
  {
    if Under(doc, cur, Some(ancestor)) { AncestorIsOlder(doc, cur, ancestor); }
  }

  /** In the run that holds the ancestor, later items are under it. */
  lemma {:induction false} HolderAnswers(frags: seq<Fragment>, at: Pos, ancestor: Identity)
    requires Linked(DocOf(frags)) && InRun(frags, at) && Contains(frags[at.frag], ancestor)
    ensures Has(DocOf(frags), IdAt(frags, at))
    ensures Under(DocOf(frags), IdAt(frags, at), Some(ancestor)) <==> ancestor.counter < IdAt(frags, at).counter
  {
    ClimbRun(frags, at, Some(ancestor));
    if IdAt(frags, at).counter <= ancestor.counter && Under(DocOf(frags), IdAt(frags, at), Some(ancestor)) {
      AncestorIsOlder(DocOf(frags), IdAt(frags, at), ancestor);
    }
  }

  lemma {:induction false} UnderTransitive(doc: Doc, x: Identity, y: Identity, z: Option<Identity>)
    requires Linked(doc) && Has(doc, x) && Has(doc, y) && Under(doc, x, Some(y)) && Under(doc, y, z)
    ensures Under(doc, x, z)
    decreases x.counter
  {
    var up := ParentOf(doc, x);
    if up != z && up != Some(y) {
      UnderTransitive(doc, up.value, y, z);
    }
  }

  /** Between neighbours, the climb from the later one to the earlier one goes
      through left children only, until it arrives. */
  lemma {:induction false} NeighbourClimbsLeft(doc: Doc, item: Identity, ancestor: Identity, cur: Identity, up: Identity)
    requires Valid(doc) && Adjacent(doc, ancestor, item) && Has(doc, cur)
    requires cur == item || Under(doc, item, Some(cur))
    requires Under(doc, cur, Some(ancestor)) && ParentOf(doc, cur) == Some(up) && up != ancestor
    ensures doc[Index(doc, cur)].link.side.Left?
  {
    UnderChild(doc, item, cur, Some(up));
    AncestorIsOlder(doc, item, up);
    ChildSide(doc, item, up, cur);
    assert Under(doc, up, Some(ancestor));
    AncestorIsOlder(doc, up, ancestor);
    if Index(doc, up) < Index(doc, item) {
      assert Index(doc, up) != Index(doc, ancestor);
      SubtreeContiguous(doc, up, Index(doc, up), Index(doc, ancestor), Index(doc, item));
      assert Under(doc, ancestor, Some(up));
      AncestorIsOlder(doc, ancestor, up);
    }
  }

  /** The current item is inside a run: go on from the run's first item. For
      neighbours the answer is already no. */
  lemma {:induction false} InsideIsNotUnder(frags: seq<Fragment>, item: Identity, ancestor: Identity, at: Pos, left: set<nat>)
    requires NonEmptyRuns(frags) && Valid(DocOf(frags)) && InRun(frags, at) && at.off > 0 && !Contains(frags[at.frag], ancestor)
    requires Climbing(DocOf(frags), frags, item, ancestor, IdAt(frags, at), left)
    ensures Climbing(DocOf(frags), frags, item, ancestor, frags[at.frag].origin, left)
    ensures Adjacent(DocOf(frags), ancestor, item) ==> !Under(DocOf(frags), item, Some(ancestor))
  {
    var doc, cur, first := DocOf(frags), IdAt(frags, at), frags[at.frag].origin;
    ClimbRun(frags, at, Some(ancestor));
    ClimbRun(frags, at, Some(first));
    assert IdAt(frags, Pos(at.frag, 0)) == first;
    assert Contains(frags[at.frag], first);
    if Under(doc, item, Some(ancestor)) && item != cur {
      UnderTransitive(doc, item, cur, Some(first));
    }
    if Adjacent(doc, ancestor, item) && Under(doc, item, Some(ancestor)) {
      RunLinksRight(frags, item, ancestor, at);
    }
  }

  lemma {:induction false} RunLinksRight(frags: seq<Fragment>, item: Identity, ancestor: Identity, at: Pos)
    requires Valid(DocOf(frags)) && InRun(frags, at) && at.off > 0 && !Contains(frags[at.frag], ancestor)
    requires Adjacent(DocOf(frags), ancestor, item) && Has(DocOf(frags), IdAt(frags, at))
    requires IdAt(frags, at) == item || Under(DocOf(frags), item, Some(IdAt(frags, at)))
    ensures !Under(DocOf(frags), IdAt(frags, at), Some(ancestor))
  {
    PosIndex(frags, at);
    assert Contains(frags[at.frag], ItemAt(frags[at.frag], at.off - 1));
    if Under(DocOf(frags), IdAt(frags, at), Some(ancestor)) {
      NeighbourClimbsLeft(DocOf(frags), item, ancestor, IdAt(frags, at), ItemAt(frags[at.frag], at.off - 1));
    }
  }

  /** The current item is first of its run: go on from its parent. */
  lemma {:induction false} ClimbOn(frags: seq<Fragment>, item: Identity, ancestor: Identity, at: Pos, left: set<nat>)
    requires NonEmptyRuns(frags) && Valid(DocOf(frags)) && InRun(frags, at) && at.off == 0 && !Contains(frags[at.frag], ancestor)
    requires Climbing(DocOf(frags), frags, item, ancestor, IdAt(frags, at), left)
    requires frags[at.frag].link.parent.Some? && frags[at.frag].link.parent != Some(ancestor)
    ensures Climbing(DocOf(frags), frags, item, ancestor, frags[at.frag].link.parent.value, left + {at.frag})
    ensures Under(DocOf(frags), item, Some(ancestor)) ==> |left + {at.frag}| == |left| + 1 <= |frags|
  {
    var doc, cur, up := DocOf(frags), IdAt(frags, at), frags[at.frag].link.parent.value;
    ClimbOut(frags, at, Some(ancestor));
    PosParent(frags, at);
    assert Under(doc, cur, Some(up));
    if Under(doc, item, Some(ancestor)) {
      if item != cur { UnderTransitive(doc, item, cur, Some(up)); }
      ClimbGrows(frags, left, at, up.counter);
    }
  }

  // ---- Insertion at a run boundary ---------------------------------------

  /** A run inserted at rank `rank` with this link sits right after the visible
      element that ends at `offset`, which is where its link puts it. */
  ghost predicate IsSlot(frags: seq<Fragment>, offset: nat, link: Link, rank: nat) {
    && rank <= |frags| && Linked(DocOf(frags)) && Start(frags, rank) <= |Items(frags)|
    && IsPlace(Items(frags), offset, Start(frags, rank))
    && (LeftAt(DocOf(frags), Start(frags, rank)).Some? ==> Has(DocOf(frags), LeftAt(DocOf(frags), Start(frags, rank)).value))
    && link == FugueLaws.MintLink(DocOf(frags), LeftAt(DocOf(frags), Start(frags, rank)))
  }

  /** The rank right after the visible predecessor, if that ends its run. */
  method SuccessorRank(frags: seq<Fragment>, index: RunIndex, left: Option<Identity>, ghost p: nat) returns (rank: Option<nat>)
    requires NonEmptyRuns(frags) && Valid(DocOf(frags)) && Coherent(frags, index)
    requires p <= |DocOf(frags)| && left == LeftAt(DocOf(frags), p)
    ensures rank.Some? ==> rank.value <= |frags| && Start(frags, rank.value) == p
    ensures rank.None? ==> forall k: nat :: k <= |frags| ==> Start(frags, k) != p
  {
    StartEnds(frags);
    if left.None? { return Some(0); }
    HasItem(DocOf(frags), p - 1);
    var at := Locate(frags, index, left.value);
    PlaceOf(frags, at.value, p);
    hide *;
    if at.value.off + 1 != Length(frags[at.value.frag]) {
      NoStartInside(frags, at.value.frag, p);
      return None;
    }
    return Some(at.value.frag + 1);
  }

  lemma {:induction false} PlaceOf(frags: seq<Fragment>, at: Pos, p: nat)
    requires Valid(DocOf(frags)) && 0 < p <= |DocOf(frags)| && InRun(frags, at) && IdAt(frags, at) == DocOf(frags)[p - 1].id
    ensures at.frag < |frags| && at.off < Length(frags[at.frag]) && p == Start(frags, at.frag) + at.off + 1
    ensures Start(frags, at.frag + 1) == Start(frags, at.frag) + Length(frags[at.frag])
  {
    hide Start, Items, Length;
    PosIndex(frags, at);
    IndexIs(DocOf(frags), p - 1);
    StartStep(frags, at.frag);
  }

  /** No run starts inside another. */
  lemma {:induction false} NoStartInside(frags: seq<Fragment>, i: nat, p: nat)
    requires i < |frags| && Start(frags, i) < p < Start(frags, i) + Length(frags[i])
    ensures forall k: nat :: k <= |frags| ==> Start(frags, k) != p
  {
    StartStep(frags, i);
    forall k: nat | k <= |frags|
      ensures Start(frags, k) != p
    {
      if k <= i { StartMonotone(frags, k, i); } else { StartMonotone(frags, i + 1, k); }
    }
  }

  /** The visible element that ends at `offset`, or the document's start, is followed
      by the start of a run. */
  ghost predicate AtBoundary(frags: seq<Fragment>, offset: nat) {
    exists k :: 0 <= k <= |frags| && IsPlace(Items(frags), offset, Start(frags, k))
  }

  /** Before the end of the text there is a run after the boundary. */
  lemma {:induction false} BoundaryInside(frags: seq<Fragment>, offset: nat, k: nat)
    requires offset < |Text(Items(frags))| && k <= |frags| && IsPlace(Items(frags), offset, Start(frags, k))
    ensures k < |frags|
  {
    StartEnds(frags);
    OffsetEnds(Items(frags));
  }

  lemma {:induction false} NoBoundary(frags: seq<Fragment>, offset: nat, p: nat)
    requires IsPlace(Items(frags), offset, p) && forall k: nat :: k <= |frags| ==> Start(frags, k) != p
    ensures !AtBoundary(frags, offset)
  {
    forall k | 0 <= k <= |frags|
      ensures !IsPlace(Items(frags), offset, Start(frags, k))
    {
      if IsPlace(Items(frags), offset, Start(frags, k)) { PlaceIsUnique(Items(frags), offset, p, Start(frags, k)); }
    }
  }

  /** The link and rank for an insertion before the end of the text, exactly if the
      indexes are valid and the place is at a boundary between retained runs. */
  method SimpleMiddleInsertion(frags: seq<Fragment>, index: RunIndex, offset: nat) returns (slot: Option<(Link, nat)>)
    requires NonEmptyRuns(frags) && Valid(DocOf(frags)) && (index.valid ==> Coherent(frags, index))
    requires offset <= |Text(Items(frags))|
    ensures slot.Some? ==> IsSlot(frags, offset, slot.value.0, slot.value.1)
    ensures slot.Some? <==> index.valid && offset < |Text(Items(frags))| && AtBoundary(frags, offset)
  {
    if !index.valid || offset >= |Text(Items(frags))| { return None; }
    var left, p := VisibleElementBefore(frags, offset);
    LeftAtIsThere(DocOf(frags), p);
    var found := SuccessorRank(frags, index, left, p);
    if found.None? {
      NoBoundary(frags, offset, p);
      return None;
    }
    var rank := found.value;
    BoundaryInside(frags, offset, rank);
    var link := BoundaryLink(frags, index, left, rank);
    return Some((link, rank));
  }

  /** The link that puts a run between two neighbouring runs. */
  method BoundaryLink(frags: seq<Fragment>, index: RunIndex, left: Option<Identity>, rank: nat) returns (link: Link)
    requires NonEmptyRuns(frags) && Valid(DocOf(frags)) && Coherent(frags, index)
    requires rank < |frags| && Start(frags, rank) <= |DocOf(frags)| && left == LeftAt(DocOf(frags), Start(frags, rank))
    requires left.Some? ==> Has(DocOf(frags), left.value)
    requires After(DocOf(frags), left) == Start(frags, rank)
    ensures link == FugueLaws.MintLink(DocOf(frags), left)
  {
    var right := ItemAt(frags[rank], 0);
    PosIndex(frags, Pos(rank, 0));
    hide NonEmptyRuns, Coherent, Linked, Ordered, Start, Items;
    var under := left.None?;
    if left.Some? {
      NeighboursAdjacent(frags, left.value, right, rank);
      under := IsDescendant(frags, index, right, left.value);
    } else {
      RootHasAll(DocOf(frags), right);
    }
    link := if under then Link(Some(right), Left, Some(right)) else Link(left, Right, Some(right));
  }

  lemma {:induction false} NeighboursAdjacent(frags: seq<Fragment>, left: Identity, right: Identity, rank: nat)
    requires Distinct(DocOf(frags)) && 0 < rank < |frags| && NonEmptyRuns(frags) && right == ItemAt(frags[rank], 0)
    requires 0 < Start(frags, rank) <= |DocOf(frags)| && LeftAt(DocOf(frags), Start(frags, rank)) == Some(left)
    ensures Adjacent(DocOf(frags), left, right) && left != right
  {
    PosIndex(frags, Pos(rank, 0));
    IndexIs(DocOf(frags), Start(frags, rank) - 1);
  }

  /** Why the rank is exact: the new run's first item belongs at the slot, with
      every earlier item before it and every later one after it. */
  lemma {:induction false} SlotIsExact(frags: seq<Fragment>, offset: nat, link: Link, rank: nat, f: Fragment)
    requires NonEmptyRuns(frags) && Valid(DocOf(frags)) && IsSlot(frags, offset, link, rank)
    requires f.link == link && Length(f) > 0 && FreshRun(frags, f)
    requires forall i :: 0 <= i < |DocOf(frags)| ==> DocOf(frags)[i].id.counter < f.origin.counter
    ensures LinkFits(DocOf(frags), FirstNode(f)) && Belongs(DocOf(frags), Start(frags, rank), FirstNode(f))
    ensures Items(frags[..rank] + [f] + frags[rank..]) == Splice(Items(frags), Start(frags, rank), ItemsOf(f))
    ensures Valid(DocOf(frags[..rank] + [f] + frags[rank..]))
  {
    var doc, p := DocOf(frags), Start(frags, rank);
    var left := LeftAt(doc, p);
    RunIsChain(f);
    assert !Has(doc, NodesOf(ItemsOf(f))[0].id);
    LeftAtIsThere(doc, p);
    MintedLinkFits(doc, left, f.origin);
    MintedLinkIsExact(doc, left, f.origin);
    InsertBetween(frags, rank, f);
    SplicedValid(frags, frags[..rank] + [f] + frags[rank..], p, f);
  }
}
