/** Where the runs of one local edit go. All links are minted against the old
    document; integrating the runs in order puts every run right after the
    element it was minted after, and runs minted after the same element follow
    each other in the order they were minted. */
module LocalPlacement {
  import opened Ids
  import opened FugueOrder
  import opened FugueLaws
  import opened Fragments
  import opened SequenceOrder
  import opened VisibleText

  // ---- Nodes not yet in the document -------------------------------------

  /** The path a node would have survives an insertion up to the shift. */
  lemma {:induction false} NewPathShifts(doc: Doc, p: nat, m: Node, n: Node)
    requires p <= |doc| && Linked(doc) && !Has(doc, m.id) && LinkFits(doc, m) && LinkFits(doc, n)
    ensures Linked(InsertAt(doc, p, m)) && LinkFits(InsertAt(doc, p, m), n)
    ensures NodePath(InsertAt(doc, p, m), n) == Shift(NodePath(doc, n), p)
  {
    InsertLinked(doc, p, m);
    InsertLinkFits(doc, p, m, n);
    if n.link.parent.Some? {
      InsertPath(doc, p, m, n.link.parent.value);
    }
    ShiftConcat(PathUnder(doc, n.link.parent, n.id.counter), [KeyOf(doc, n)], p);
  }

  ghost predicate StandsBefore(doc: Doc, x: Identity, n: Node)
    requires Linked(doc) && LinkFits(doc, n) && Has(doc, x)
  {
    PathLess(Path(doc, x), NodePath(doc, n))
  }

  ghost predicate Follows(doc: Doc, x: Identity, n: Node)
    requires Linked(doc) && LinkFits(doc, n) && Has(doc, x)
  {
    PathLess(NodePath(doc, n), Path(doc, x))
  }

  /** An insertion elsewhere does not move a node relative to old items. */
  lemma {:induction false} InsertKeepsSides(doc: Doc, p: nat, m: Node, n: Node, x: Identity)
    requires p <= |doc| && Linked(doc) && !Has(doc, m.id) && LinkFits(doc, m) && LinkFits(doc, n) && Has(doc, x)
    ensures Linked(InsertAt(doc, p, m)) && LinkFits(InsertAt(doc, p, m), n) && Has(InsertAt(doc, p, m), x)
    ensures StandsBefore(InsertAt(doc, p, m), x, n) == StandsBefore(doc, x, n)
    ensures Follows(InsertAt(doc, p, m), x, n) == Follows(doc, x, n)
  {
    NewPathShifts(doc, p, m, n);
    InsertPath(doc, p, m, x);
    ShiftKeepsOrder(Path(doc, x), NodePath(doc, n), p);
    ShiftKeepsOrder(NodePath(doc, n), Path(doc, x), p);
  }

  /** Nor does inserting a whole run. */
  lemma {:induction false} SpliceKeepsSides(doc: Doc, p: nat, chain: Doc, n: Node, x: Identity)
    requires Valid(doc) && IsChain(chain) && Fresh(doc, chain)
    requires LinkFits(doc, chain[0]) && Belongs(doc, p, chain[0]) && LinkFits(doc, n) && Has(doc, x)
    ensures Valid(Splice(doc, p, chain)) && LinkFits(Splice(doc, p, chain), n) && Has(Splice(doc, p, chain), x)
    ensures StandsBefore(Splice(doc, p, chain), x, n) == StandsBefore(doc, x, n)
    ensures Follows(Splice(doc, p, chain), x, n) == Follows(doc, x, n)
    decreases |chain|
  {
    SpliceRun(doc, p, chain);
    var last := |chain| - 1;
    if last == 0 {
      assert Splice(doc, p, chain) == InsertAt(doc, p, chain[0]);
      InsertKeepsSides(doc, p, chain[0], n, x);
    } else {
      var init := chain[..last];
      ChainInit(doc, chain);
      SpliceRun(doc, p, init);
      SpliceKeepsSides(doc, p, init, n, x);
      SpliceLast(doc, p, chain);
      NextOfRunFits(doc, p, chain);
      InsertKeepsSides(Splice(doc, p, init), p + last, chain[last], n, x);
    }
  }

  lemma {:induction false} ChainInit(doc: Doc, chain: Doc)
    requires |chain| > 1 && IsChain(chain) && Fresh(doc, chain)
    ensures IsChain(chain[..|chain| - 1]) && Fresh(doc, chain[..|chain| - 1]) && chain[..|chain| - 1][0] == chain[0]
  {
  }

  lemma {:induction false} SpliceLast(doc: Doc, p: nat, chain: Doc)
    requires p <= |doc| && |chain| > 1
    ensures Splice(doc, p, chain)
            == InsertAt(Splice(doc, p, chain[..|chain| - 1]), p + |chain| - 1, chain[|chain| - 1])
  {
  }

  // ---- Runs minted against one document ----------------------------------

  function LeftAt(doc: Doc, p: nat): Option<Identity>
    requires p <= |doc|
  {
    if p == 0 then None else Some(doc[p - 1].id)
  }

  lemma {:induction false} LeftAtIsThere(doc: Doc, p: nat)
    requires Distinct(doc) && p <= |doc|
    ensures LeftAt(doc, p).Some? ==> Has(doc, LeftAt(doc, p).value)
    ensures After(doc, LeftAt(doc, p)) == p
  {
    if p > 0 { IndexIs(doc, p - 1); }
  }

  /** The runs of one edit: each minted after its place in `doc`, with
      consecutive stretches of counters above everything in `doc`. */
  ghost predicate Minted(doc: Doc, fs: seq<Fragment>, ps: seq<nat>)
    requires Linked(doc)
  {
    && |fs| == |ps| && Places(ps, |doc|)
    && (forall j :: 0 <= j < |fs| ==> MintedAt(doc, fs[j], ps[j]))
    && (forall i, j :: 0 <= i < j < |fs| ==>
          fs[i].origin.actor == fs[j].origin.actor && fs[i].origin.counter + Length(fs[i]) <= fs[j].origin.counter)
  }

  ghost predicate MintedAt(doc: Doc, f: Fragment, p: nat)
    requires Linked(doc) && p <= |doc|
  {
    LeftAtIsThere(doc, p);
    && Length(f) > 0 && f.link == FugueLaws.MintLink(doc, LeftAt(doc, p))
    && forall i :: 0 <= i < |doc| ==> doc[i].id.counter < f.origin.counter
  }

  /** In `w`, which extends `doc`, the run still goes between the same old items. */
  ghost predicate Slot(doc: Doc, w: Doc, f: Fragment, p: nat)
    requires Linked(w) && p <= |doc|
  {
    && LinkFits(w, FirstNode(f))
    && (p > 0 ==> Has(w, doc[p - 1].id) && StandsBefore(w, doc[p - 1].id, FirstNode(f)))
    && (p < |doc| ==> Has(w, doc[p].id) && Follows(w, doc[p].id, FirstNode(f)))
  }

  lemma {:induction false} MintedHasSlot(doc: Doc, f: Fragment, p: nat)
    requires Valid(doc) && p <= |doc| && MintedAt(doc, f, p)
    ensures Slot(doc, doc, f, p)
  {
    var left := LeftAt(doc, p);
    LeftAtIsThere(doc, p);
    MintedLinkFits(doc, left, f.origin);
    forall i | 0 <= i < |doc|
      ensures doc[i].id != f.origin
    {
    }
    MintedLinkIsExact(doc, left, f.origin);
    if p > 0 { HasItem(doc, p - 1); }
    if p < |doc| { HasItem(doc, p); }
  }

  lemma {:induction false} SlotSurvives(doc: Doc, w: Doc, q: nat, chain: Doc, f: Fragment, p: nat)
    requires Valid(w) && p <= |doc| && Slot(doc, w, f, p)
    requires IsChain(chain) && Fresh(w, chain) && LinkFits(w, chain[0]) && Belongs(w, q, chain[0])
    ensures Valid(Splice(w, q, chain)) && Slot(doc, Splice(w, q, chain), f, p)
  {
    SpliceRun(w, q, chain);
    if p > 0 { SpliceKeepsSides(w, q, chain, FirstNode(f), doc[p - 1].id); }
    if p < |doc| { SpliceKeepsSides(w, q, chain, FirstNode(f), doc[p].id); }
    NewFits(w, q, chain, FirstNode(f));
  }

  lemma {:induction false} NewFits(doc: Doc, p: nat, chain: Doc, n: Node)
    requires p <= |doc| && LinkFits(doc, n)
    ensures LinkFits(Splice(doc, p, chain), n)
  {
    if n.link.parent.Some? { SpliceHas(doc, p, chain, n.link.parent.value); }
    if n.link.rightOrigin.Some? { SpliceHas(doc, p, chain, n.link.rightOrigin.value); }
  }

  // ---- Two runs at one place ---------------------------------------------

  /** Items of a run climb to its first item. */
  lemma {:induction false} ChainTop(w: Doc, q: nat, chain: Doc, i: nat)
    requires Linked(w) && IsChain(chain) && q + |chain| <= |w| && w[q..q + |chain|] == chain && i < |chain|
    ensures Has(w, chain[i].id) && TopChild(w, chain[i].id, chain[0].link.parent) == Some(chain[0].id)
    decreases i
  {
    assert w[q + i] == chain[i];
    IndexIs(w, q + i);
    if i > 0 {
      ChainTop(w, q, chain, i - 1);
      assert ParentOf(w, chain[i].id) == Some(chain[i - 1].id);
      assert w[q] == chain[0];
      assert LinkFits(w, w[q]);
      assert chain[i - 1].id.counter >= chain[0].id.counter;
    }
  }

  /** A run follows a run with the same link and lower counters. */
  lemma {:induction false} RunFollowsTwin(w: Doc, q: nat, chain: Doc, n: Node)
    requires Valid(w) && IsChain(chain) && q + |chain| <= |w| && w[q..q + |chain|] == chain
    requires LinkFits(w, n) && !Has(w, n.id) && n.link == chain[0].link
    requires IdLess(chain[0].id, n.id)
    ensures Has(w, w[q + |chain| - 1].id) && StandsBefore(w, w[q + |chain| - 1].id, n)
  {
    var last := |chain| - 1;
    ChainTop(w, q, chain, last);
    SliceAt(w, q, chain, last);
    SliceAt(w, q, chain, 0);
    IndexIs(w, q);
    CompareUnder(w, chain[last].id, n, chain[0].id);
    TwinKeys(w, w[q], n);
  }

  lemma {:induction false} SliceAt(w: Doc, q: nat, chain: Doc, i: nat)
    requires q + |chain| <= |w| && w[q..q + |chain|] == chain && i < |chain|
    ensures w[q + i] == chain[i]
  {
    assert w[q + i] == w[q..q + |chain|][i];
  }

  lemma {:induction false} TwinKeys(w: Doc, m: Node, n: Node)
    requires LinkFits(w, m) && LinkFits(w, n) && m.link == n.link && IdLess(m.id, n.id)
    ensures KeyLess(KeyOf(w, m), KeyOf(w, n))
  {
  }

  // ---- The next place ----------------------------------------------------

  lemma {:induction false} BetweenIsBelongs(w: Doc, q: nat, n: Node)
    requires Valid(w) && LinkFits(w, n) && q <= |w|
    requires q > 0 ==> Has(w, w[q - 1].id) && StandsBefore(w, w[q - 1].id, n)
    requires q < |w| ==> Has(w, w[q].id) && Follows(w, w[q].id, n)
    ensures Belongs(w, q, n)
  {
    if q > 0 { EarlierIsLess(w, n, q); }
    if q < |w| { LaterIsGreater(w, n, q); }
  }

  function RunItems(fs: seq<Fragment>): (r: seq<seq<Item>>)
    ensures |r| == |fs|
  {
    seq(|fs|, j requires 0 <= j < |fs| => ItemsOf(fs[j]))
  }

  function TotalItems(runs: seq<seq<Item>>): nat {
    if runs == [] then 0 else TotalItems(runs[..|runs| - 1]) + |runs[|runs| - 1]|
  }

  lemma {:induction false} WovenLength(base: seq<Item>, ps: seq<nat>, runs: seq<seq<Item>>)
    requires |ps| == |runs| && Places(ps, |base|)
    ensures |Woven(base, ps, runs)| == |base| + TotalItems(runs)
    decreases |ps|
  {
    if ps != [] {
      var last := |ps| - 1;
      WovenLength(base[..ps[last]], ps[..last], runs[..last]);
    }
  }

  /** Past the last place the base shows through. */
  lemma {:induction false} WovenExtends(base: seq<Item>, ps: seq<nat>, runs: seq<seq<Item>>, p: nat)
    requires |ps| == |runs| && Places(ps, |base|) && p <= |base| && (ps != [] ==> ps[|ps| - 1] <= p)
    ensures Places(ps, |base[..p]|)
    ensures Woven(base, ps, runs) == Woven(base[..p], ps, runs) + base[p..]
  {
    if ps != [] {
      var q := ps[|ps| - 1];
      assert base[..p][..q] == base[..q];
      assert base[q..] == base[..p][q..] + base[p..];
    } else {
      assert base == base[..p] + base[p..];
    }
  }

  /** Weaving one more run is splicing it in after the ones before it. */
  lemma {:induction false} WovenStep(base: seq<Item>, ps: seq<nat>, runs: seq<seq<Item>>, k: nat)
    requires |ps| == |runs| && Places(ps, |base|) && k < |ps|
    ensures Places(ps[..k], |base|) && Places(ps[..k + 1], |base|)
    ensures var w := Woven(base, ps[..k], runs[..k]);
            var q := ps[k] + TotalItems(runs[..k]);
            && q <= |w| && w[q..] == base[ps[k]..]
            && Woven(base, ps[..k + 1], runs[..k + 1]) == Splice(w, q, runs[k])
  {
    var w, p := Woven(base, ps[..k], runs[..k]), ps[k];
    WovenExtends(base, ps[..k], runs[..k], p);
    WovenLength(base[..p], ps[..k], runs[..k]);
    var front := Woven(base[..p], ps[..k], runs[..k]);
    assert w == front + base[p..] && |front| == p + TotalItems(runs[..k]);
    assert ps[..k + 1][..k] == ps[..k] && runs[..k + 1][..k] == runs[..k];
    WovenUnfold(base, ps[..k + 1], runs[..k + 1]);
  }

  /** What stands just before the next place: the run before it if that has the
      same place, the old item otherwise. */
  lemma {:induction false} BeforePlace(base: seq<Item>, ps: seq<nat>, runs: seq<seq<Item>>, k: nat)
    requires |ps| == |runs| && Places(ps, |base|) && k < |ps|
    ensures Places(ps[..k], |base|)
    ensures var w := Woven(base, ps[..k], runs[..k]);
            var q := ps[k] + TotalItems(runs[..k]);
            && q <= |w|
            && (k > 0 && ps[k - 1] == ps[k] ==> |runs[k - 1]| <= q && w[q - |runs[k - 1]|..q] == runs[k - 1])
            && (ps[k] > 0 && (k > 0 ==> ps[k - 1] < ps[k]) ==> q > 0 && w[q - 1] == base[ps[k] - 1])
            && (k == 0 ==> q == ps[k])
  {
    var w, p := Woven(base, ps[..k], runs[..k]), ps[k];
    var q := p + TotalItems(runs[..k]);
    WovenExtends(base, ps[..k], runs[..k], p);
    WovenLength(base[..p], ps[..k], runs[..k]);
    if k > 0 {
      WovenUnfold(base[..p], ps[..k], runs[..k]);
      var head := Woven(base[..p][..ps[k - 1]], ps[..k][..k - 1], runs[..k][..k - 1]);
      hide *;
      EndsWith(w, q, head, runs[k - 1], base[..p][ps[k - 1]..], base[p..]);
    } else {
      assert w == base[..p] + base[p..];
    }
  }

  lemma {:induction false} EndsWith<T>(w: seq<T>, q: nat, head: seq<T>, run: seq<T>, gap: seq<T>, rest: seq<T>)
    requires w == head + run + gap + rest && q == |head + run + gap|
    ensures q <= |w|
    ensures gap == [] ==> |run| <= q && w[q - |run|..q] == run
    ensures gap != [] ==> q > 0 && w[q - 1] == gap[|gap| - 1]
  {
  }

  /** The runs woven so far, as a document in which later runs keep their slots. */
  ghost predicate Placed(base: seq<Item>, fs: seq<Fragment>, ps: seq<nat>, k: nat)
    requires |fs| == |ps| && Places(ps, |base|) && k <= |fs| && Places(ps[..k], |base|)
  {
    var w := NodesOf(Woven(base, ps[..k], RunItems(fs)[..k]));
    Valid(w) && forall m :: k <= m < |fs| ==> Slot(NodesOf(base), w, fs[m], ps[m])
  }

  lemma {:induction false} StartPlaced(base: seq<Item>, fs: seq<Fragment>, ps: seq<nat>)
    requires Valid(NodesOf(base)) && Minted(NodesOf(base), fs, ps)
    ensures Places(ps[..0], |base|) && Placed(base, fs, ps, 0)
  {
    assert Woven(base, ps[..0], RunItems(fs)[..0]) == base;
    forall m | 0 <= m < |fs|
      ensures Slot(NodesOf(base), NodesOf(base), fs[m], ps[m])
    {
      MintedHasSlot(NodesOf(base), fs[m], ps[m]);
    }
  }

  /** What stands before the next place `q` in the woven items, and after it. */
  ghost predicate Around(base: seq<Item>, fs: seq<Fragment>, ps: seq<nat>, k: nat, items: seq<Item>, q: nat)
    requires |fs| == |ps| && k < |fs| && Places(ps, |base|)
  {
    && q <= |items| && items[q..] == base[ps[k]..]
    && (k > 0 && ps[k - 1] == ps[k] ==>
          Length(fs[k - 1]) <= q && items[q - Length(fs[k - 1])..q] == ItemsOf(fs[k - 1]))
    && (ps[k] > 0 && (k > 0 ==> ps[k - 1] < ps[k]) ==> q > 0 && items[q - 1] == base[ps[k] - 1])
    && (k == 0 ==> q == ps[k])
    && (ps[k] == 0 && k > 0 ==> ps[k - 1] == 0)
  }

  /** The next run belongs right after its predecessor at the same place, or
      right after the element it was minted after. */
  lemma {:induction false} NextBelongs(base: seq<Item>, fs: seq<Fragment>, ps: seq<nat>, k: nat, items: seq<Item>, q: nat)
    requires Valid(NodesOf(base)) && Minted(NodesOf(base), fs, ps) && k < |fs|
    requires Valid(NodesOf(items)) && Slot(NodesOf(base), NodesOf(items), fs[k], ps[k])
    requires Around(base, fs, ps, k, items, q) && !Has(NodesOf(items), fs[k].origin)
    ensures LinkFits(NodesOf(items), FirstNode(fs[k])) && Belongs(NodesOf(items), q, FirstNode(fs[k]))
  {
    hide *;
    ValidIsLinked(NodesOf(items));
    ValidIsLinked(NodesOf(base));
    PlaceInBase(base, fs, ps, k);
    RightSide(base, fs, ps, k, items, q);
    if k > 0 && ps[k - 1] == ps[k] {
      AroundTwin(base, fs, ps, k, items, q);
      TwinBefore(base, fs, ps, k, items, q);
    } else {
      LeftSide(base, fs, ps, k, items, q);
    }
    BetweenIsBelongs(NodesOf(items), q, FirstNode(fs[k]));
  }

  lemma {:induction false} ValidIsLinked(doc: Doc)
    requires Valid(doc)
    ensures Linked(doc)
  {
  }

  lemma {:induction false} PlaceInBase(base: seq<Item>, fs: seq<Fragment>, ps: seq<nat>, k: nat)
    requires Linked(NodesOf(base)) && Minted(NodesOf(base), fs, ps) && k < |fs|
    ensures |fs| == |ps| && Places(ps, |base|) && ps[k] <= |NodesOf(base)| == |base|
    ensures MintedAt(NodesOf(base), fs[k], ps[k])
  {
  }

  lemma {:induction false} AroundTwin(base: seq<Item>, fs: seq<Fragment>, ps: seq<nat>, k: nat, items: seq<Item>, q: nat)
    requires |fs| == |ps| && 0 < k < |fs| && Places(ps, |base|) && ps[k - 1] == ps[k] && Around(base, fs, ps, k, items, q)
    ensures Length(fs[k - 1]) <= q <= |items| && items[q - Length(fs[k - 1])..q] == ItemsOf(fs[k - 1])
  {
  }

  lemma {:induction false} RightSide(base: seq<Item>, fs: seq<Fragment>, ps: seq<nat>, k: nat, items: seq<Item>, q: nat)
    requires |fs| == |ps| && k < |fs| && Places(ps, |base|) && Around(base, fs, ps, k, items, q)
    requires Linked(NodesOf(items)) && ps[k] <= |NodesOf(base)| && Slot(NodesOf(base), NodesOf(items), fs[k], ps[k])
    ensures var w := NodesOf(items);
            && q <= |w| && LinkFits(w, FirstNode(fs[k]))
            && (q < |w| ==> Has(w, w[q].id) && Follows(w, w[q].id, FirstNode(fs[k])))
  {
    if q < |items| {
      assert items[q] == items[q..][0] == base[ps[k]];
    }
  }

  lemma {:induction false} LeftSide(base: seq<Item>, fs: seq<Fragment>, ps: seq<nat>, k: nat, items: seq<Item>, q: nat)
    requires |fs| == |ps| && k < |fs| && Places(ps, |base|) && Around(base, fs, ps, k, items, q)
    requires Linked(NodesOf(items)) && ps[k] <= |NodesOf(base)| && Slot(NodesOf(base), NodesOf(items), fs[k], ps[k])
    requires !(k > 0 && ps[k - 1] == ps[k])
    ensures var w := NodesOf(items);
            q > 0 ==> q <= |w| && Has(w, w[q - 1].id) && StandsBefore(w, w[q - 1].id, FirstNode(fs[k]))
  {
    assert k > 0 ==> ps[k - 1] <= ps[k];
  }

  lemma {:induction false} WovenAround(base: seq<Item>, fs: seq<Fragment>, ps: seq<nat>, k: nat)
    requires |fs| == |ps| && k < |fs| && Places(ps, |base|)
    ensures Places(ps[..k], |base|)
    ensures Around(base, fs, ps, k, Woven(base, ps[..k], RunItems(fs)[..k]), ps[k] + TotalItems(RunItems(fs)[..k]))
  {
    WovenStep(base, ps, RunItems(fs), k);
    BeforePlace(base, ps, RunItems(fs), k);
  }

  lemma {:induction false} TwinBefore(base: seq<Item>, fs: seq<Fragment>, ps: seq<nat>, k: nat, items: seq<Item>, q: nat)
    requires Valid(NodesOf(base)) && Minted(NodesOf(base), fs, ps) && 0 < k < |fs| && ps[k - 1] == ps[k]
    requires Valid(NodesOf(items)) && LinkFits(NodesOf(items), FirstNode(fs[k])) && !Has(NodesOf(items), fs[k].origin)
    requires Length(fs[k - 1]) <= q <= |items| && items[q - Length(fs[k - 1])..q] == ItemsOf(fs[k - 1])
    ensures q > 0 && Has(NodesOf(items), NodesOf(items)[q - 1].id)
    ensures StandsBefore(NodesOf(items), NodesOf(items)[q - 1].id, FirstNode(fs[k]))
  {
    var w, chain := NodesOf(items), NodesOf(ItemsOf(fs[k - 1]));
    var at := q - |chain|;
    RunIsChain(fs[k - 1]);
    assert MintedAt(NodesOf(base), fs[k - 1], ps[k - 1]) && MintedAt(NodesOf(base), fs[k], ps[k]);
    assert fs[k - 1].link == fs[k].link && IdLess(fs[k - 1].origin, fs[k].origin);
    NodesOfSlice(items, at, ItemsOf(fs[k - 1]));
    hide Minted, MintedAt, Valid, ItemsOf;
    RunFollowsTwin(w, at, chain, FirstNode(fs[k]));
    HasItem(w, q - 1);
  }

  lemma {:induction false} NodesOfSlice(items: seq<Item>, at: nat, run: seq<Item>)
    requires at + |run| <= |items| && items[at..at + |run|] == run
    ensures NodesOf(items)[at..at + |run|] == NodesOf(run)
  {
    forall i | 0 <= i < |run|
      ensures NodesOf(items)[at + i] == NodesOf(run)[i]
    {
      assert items[at..at + |run|][i] == items[at + i];
    }
  }

  /** One more run: it goes to its place, and later runs keep theirs. */
  lemma {:induction false} PlacedStep(base: seq<Item>, fs: seq<Fragment>, ps: seq<nat>, k: nat)
    requires Valid(NodesOf(base)) && Minted(NodesOf(base), fs, ps) && k < |fs|
    requires Places(ps[..k], |base|) && Placed(base, fs, ps, k)
    requires Fresh(NodesOf(Woven(base, ps[..k], RunItems(fs)[..k])), NodesOf(ItemsOf(fs[k])))
    ensures Places(ps[..k + 1], |base|) && Placed(base, fs, ps, k + 1)
    ensures var w := Woven(base, ps[..k], RunItems(fs)[..k]);
            && LinkFits(NodesOf(w), FirstNode(fs[k])) && !Has(NodesOf(w), fs[k].origin)
            && Place(NodesOf(w), FirstNode(fs[k])) <= |w|
            && Woven(base, ps[..k + 1], RunItems(fs)[..k + 1])
               == Splice(w, Place(NodesOf(w), FirstNode(fs[k])), ItemsOf(fs[k]))
  {
    hide *;
    var runs := RunItems(fs);
    ValidIsLinked(NodesOf(base));
    PlaceInBase(base, fs, ps, k);
    var items, q := Woven(base, ps[..k], runs[..k]), ps[k] + TotalItems(runs[..k]);
    var w, n := NodesOf(items), FirstNode(fs[k]);
    PlacedParts(base, fs, ps, k);
    FirstIsFresh(NodesOf(base), w, fs[k], ps[k]);
    WovenAround(base, fs, ps, k);
    WovenStep(base, ps, runs, k);
    NextBelongs(base, fs, ps, k, items, q);
    ValidIsLinked(w);
    RunItemsAt(fs, k);
    BelongsOnce(w, q, Place(w, n), n);
    NodesOfSplice(items, q, ItemsOf(fs[k]));
    SlotsSurvive(NodesOf(base), w, q, fs, ps, k);
    PartsPlaced(base, fs, ps, k + 1);
  }

  lemma {:induction false} RunItemsAt(fs: seq<Fragment>, k: nat)
    requires k < |fs|
    ensures RunItems(fs)[k] == ItemsOf(fs[k])
  {
  }

  ghost predicate SlotsFrom(doc: Doc, w: Doc, fs: seq<Fragment>, ps: seq<nat>, k: nat)
    requires Linked(w) && |fs| == |ps| && Places(ps, |doc|)
  {
    forall m :: k <= m < |fs| ==> Slot(doc, w, fs[m], ps[m])
  }

  lemma {:induction false} PlacedParts(base: seq<Item>, fs: seq<Fragment>, ps: seq<nat>, k: nat)
    requires |fs| == |ps| && Places(ps, |base|) && k < |fs| && Places(ps[..k], |base|) && Placed(base, fs, ps, k)
    ensures Valid(NodesOf(Woven(base, ps[..k], RunItems(fs)[..k])))
    ensures Places(ps, |NodesOf(base)|) && ps[k] <= |NodesOf(base)|
    ensures Slot(NodesOf(base), NodesOf(Woven(base, ps[..k], RunItems(fs)[..k])), fs[k], ps[k])
    ensures SlotsFrom(NodesOf(base), NodesOf(Woven(base, ps[..k], RunItems(fs)[..k])), fs, ps, k)
  {
  }

  lemma {:induction false} PartsPlaced(base: seq<Item>, fs: seq<Fragment>, ps: seq<nat>, k: nat)
    requires |fs| == |ps| && Places(ps, |base|) && k <= |fs| && Places(ps[..k], |base|)
    requires Valid(NodesOf(Woven(base, ps[..k], RunItems(fs)[..k]))) && Places(ps, |NodesOf(base)|)
    requires Linked(NodesOf(Woven(base, ps[..k], RunItems(fs)[..k])))
    requires SlotsFrom(NodesOf(base), NodesOf(Woven(base, ps[..k], RunItems(fs)[..k])), fs, ps, k)
    ensures Placed(base, fs, ps, k)
  {
  }

  lemma {:induction false} FirstIsFresh(doc: Doc, w: Doc, f: Fragment, p: nat)
    requires Linked(doc) && p <= |doc| && MintedAt(doc, f, p) && Fresh(w, NodesOf(ItemsOf(f)))
    ensures Length(f) > 0 && IsChain(NodesOf(ItemsOf(f))) && NodesOf(ItemsOf(f))[0] == FirstNode(f)
    ensures !Has(w, f.origin) && !Has(w, FirstNode(f).id)
  {
    RunIsChain(f);
    assert NodesOf(ItemsOf(f))[0].id == f.origin;
  }

  lemma {:induction false} SlotsSurvive(doc: Doc, w: Doc, q: nat, fs: seq<Fragment>, ps: seq<nat>, k: nat)
    requires Valid(w) && |fs| == |ps| && k < |fs| && Places(ps, |doc|) && Length(fs[k]) > 0
    requires SlotsFrom(doc, w, fs, ps, k) && LinkFits(w, FirstNode(fs[k]))
    requires Fresh(w, NodesOf(ItemsOf(fs[k]))) && Belongs(w, q, FirstNode(fs[k]))
    ensures Valid(Splice(w, q, NodesOf(ItemsOf(fs[k])))) && Linked(Splice(w, q, NodesOf(ItemsOf(fs[k]))))
    ensures SlotsFrom(doc, Splice(w, q, NodesOf(ItemsOf(fs[k]))), fs, ps, k + 1)
  {
    var chain := NodesOf(ItemsOf(fs[k]));
    RunIsChain(fs[k]);
    SpliceRun(w, q, chain);
    forall m | k + 1 <= m < |fs|
      ensures Slot(doc, Splice(w, q, chain), fs[m], ps[m])
    {
      SlotSurvives(doc, w, q, chain, fs[m], ps[m]);
    }
  }
}
