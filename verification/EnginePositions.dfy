/** Positions a replica takes in its own document: at any place between items, or at
    any item, with the replica's frontier. All of them are valid, so all of them
    can be written as tokens and read back. */
module EnginePositions {
  import opened Ids
  import opened VersionVectors
  import opened Fragments
  import opened Histories
  import opened Representation
  import opened EngineFrames
  import Clock
  import PositionTokens

  /** The document and the frontier of a replica that has applied `a`, narrow enough
      for a token. */
  ghost predicate Holds(u: set<Operation>, a: set<Operation>, items: seq<Item>, undo: seq<UndoEntry>, v: Version, ps: seq<Clock.Pair>) {
    && Honest(u) && a <= u && Represents(a, items, undo) && IsFrontier(a, v)
    && CarriesVersion(ps, v) && |ps| <= PositionTokens.MAX_ACTORS
    && forall o :: o in a ==> Issuable(o.timestamp)
  }

  predicate ScopeFits(s: PositionTokens.Scope) {
    && 0 < |s.document| <= PositionTokens.MAX_SCOPE && 0 < |s.stream| <= PositionTokens.MAX_SCOPE && s.epoch > 0
    && s.primitive.TextPrimitive?
  }

  /** The frontier has seen every item of the document. */
  lemma {:induction false} ItemIsCovered(u: set<Operation>, a: set<Operation>, items: seq<Item>, undo: seq<UndoEntry>, v: Version,
                                         ps: seq<Clock.Pair>, i: nat)
    requires Holds(u, a, items, undo, v, ps) && i < |items|
    ensures Issuable(items[i].node.id) && PositionTokens.Covered(ps, items[i].node.id)
  {
    var id := items[i].node.id;
    var c := Content(items[i].node, items[i].content);
    assert c in Contents(items);
    var p :| p in a && c in Supply(p);
    SupplyIsMinted(p, c);
    ItemInInterval(u, p, id);
    assert WellMinted(p, FirstCounter(p)) && Observed(v, p.timestamp);
    SeenPair(ps, v, p.timestamp);
  }

  /** What the version has observed stands in its array. */
  lemma {:induction false} SeenPair(ps: seq<Clock.Pair>, v: Version, id: Identity)
    requires CarriesVersion(ps, v) && Observed(v, id) && id.counter > 0
    ensures exists i :: 0 <= i < |ps| && ps[i].actor == id.actor && ps[i].counter >= id.counter
  {
    assert Get(v, id.actor) == Clock.Lookup(ps, id.actor);
  }

  lemma {:induction false} FrontierIsIssuable(u: set<Operation>, a: set<Operation>, items: seq<Item>, undo: seq<UndoEntry>, v: Version,
                                              ps: seq<Clock.Pair>)
    requires Holds(u, a, items, undo, v, ps)
    ensures PositionTokens.AllIssuable(ps)
  {
    forall i | 0 <= i < |ps|
      ensures Issuable(Identity(ps[i].actor, ps[i].counter))
    {
      Clock.LookupAt(ps, i);
      var b := ps[i].actor;
      assert Get(v, b) == ps[i].counter;
      var p :| p in a && p.timestamp == Identity(b, v[b]);
    }
  }

  function ItemBefore(items: seq<Item>, p: nat): Option<Identity>
    requires p <= |items|
  {
    if p == 0 then None else Some(items[p - 1].node.id)
  }

  function ItemAfter(items: seq<Item>, p: nat): Option<Identity>
    requires p <= |items|
  {
    if p == |items| then None else Some(items[p].node.id)
  }

  /** The boundary at a place, fenced by the items around it. */
  function BoundaryAt(scope: PositionTokens.Scope, affinity: PositionTokens.Affinity, ps: seq<Clock.Pair>, items: seq<Item>, p: nat): PositionTokens.Position
    requires p <= |items|
  {
    PositionTokens.Position(scope, PositionTokens.TextBoundary, affinity, ps, ItemBefore(items, p), ItemAfter(items, p), None,
                            PositionTokens.Following)
  }

  lemma {:induction false} FencesFit(u: set<Operation>, a: set<Operation>, items: seq<Item>, undo: seq<UndoEntry>, v: Version,
                                     ps: seq<Clock.Pair>, p: nat)
    requires Holds(u, a, items, undo, v, ps) && p <= |items|
    ensures PositionTokens.ItemFits(ps, ItemBefore(items, p)) && PositionTokens.ItemFits(ps, ItemAfter(items, p))
    ensures ItemBefore(items, p).Some? ==> ItemBefore(items, p) != ItemAfter(items, p)
  {
    if p > 0 { ItemIsCovered(u, a, items, undo, v, ps, p - 1); }
    if p < |items| { ItemIsCovered(u, a, items, undo, v, ps, p); }
    if 0 < p < |items| { assert NodesOf(items)[p - 1].id != NodesOf(items)[p].id; }
    hide Issuable, PositionTokens.Covered, Honest, IsFrontier, CarriesVersion;
  }

  lemma {:induction false} BoundaryIsValid(u: set<Operation>, a: set<Operation>, items: seq<Item>, undo: seq<UndoEntry>, v: Version,
                                           ps: seq<Clock.Pair>, scope: PositionTokens.Scope, affinity: PositionTokens.Affinity, p: nat)
    requires Holds(u, a, items, undo, v, ps) && ScopeFits(scope) && p <= |items|
    ensures PositionTokens.Valid(BoundaryAt(scope, affinity, ps, items, p))
  {
    FencesFit(u, a, items, undo, v, ps, p);
    FrontierIsIssuable(u, a, items, undo, v, ps);
    hide Honest, Represents, IsFrontier, PositionTokens.ItemFits, PositionTokens.AllIssuable, ItemBefore, ItemAfter;
  }

  /** Attached to the item on one side of a place, if there is one. */
  lemma {:induction false} AttachmentIsValid(u: set<Operation>, a: set<Operation>, items: seq<Item>, undo: seq<UndoEntry>, v: Version,
                                             ps: seq<Clock.Pair>, scope: PositionTokens.Scope, affinity: PositionTokens.Affinity, p: nat,
                                             side: PositionTokens.Referent)
    requires Holds(u, a, items, undo, v, ps) && ScopeFits(scope) && p <= |items|
    ensures PositionTokens.Valid(BoundaryAt(scope, affinity, ps, items, p).(kind := PositionTokens.TextAttachment, selection := side))
            <==> if side.Preceding? then p > 0 else p < |items|
  {
    FencesFit(u, a, items, undo, v, ps, p);
    FrontierIsIssuable(u, a, items, undo, v, ps);
    hide Honest, Represents, IsFrontier, PositionTokens.ItemFits, PositionTokens.AllIssuable;
  }

  /** At an item, without an affinity of its own. */
  lemma {:induction false} MarkerIsValid(u: set<Operation>, a: set<Operation>, items: seq<Item>, undo: seq<UndoEntry>, v: Version,
                                         ps: seq<Clock.Pair>, scope: PositionTokens.Scope, affinity: PositionTokens.Affinity, i: nat)
    requires Holds(u, a, items, undo, v, ps) && ScopeFits(scope) && i < |items|
    ensures PositionTokens.Valid(PositionTokens.Position(scope, PositionTokens.TextMarker, affinity, ps, None, None, Some(items[i].node.id),
                                                         PositionTokens.Following))
            <==> affinity.LeftAffinity?
  {
    ItemIsCovered(u, a, items, undo, v, ps, i);
    FrontierIsIssuable(u, a, items, undo, v, ps);
    hide Honest, Represents, IsFrontier, PositionTokens.Covered, PositionTokens.AllIssuable;
  }
}
