/** Fragments: runs of one actor's consecutive items, and the item sequence a
    list of fragments stands for. Splitting a run does not change that
    sequence, which is why everything else is stated about items. */
module Fragments {
  import opened Ids
  import opened FugueOrder

  /** A Unicode scalar value. */
  type Scalar = c: nat | c < 0xD800 || 0xE000 <= c <= 0x10FFFF witness 0

  /** `text` holds the run's scalars; a marker is one item without text. */
  datatype Fragment = Fragment(
    origin: Identity,
    link: Link,
    text: seq<Scalar>,
    deletions: seq<Identity>,
    visible: bool,
    marker: bool)

  /** One item of the document, with everything a replica knows about it.
      A marker carries no scalar. */
  datatype Item = Item(node: Node, content: Option<Scalar>, dels: set<Identity>, visible: bool)

  function Length(f: Fragment): nat {
    if f.marker then 1 else |f.text|
  }

  function ItemAt(f: Fragment, k: nat): Identity {
    Identity(f.origin.actor, f.origin.counter + k)
  }

  /** The first item carries the stored link; every later one is a right child
      of its predecessor with the same right origin. */
  function LinkAt(f: Fragment, k: nat): Link {
    if k == 0 then f.link else Link(Some(ItemAt(f, k - 1)), Right, f.link.rightOrigin)
  }

  function ItemOf(f: Fragment, k: nat): Item
    requires k < Length(f)
  {
    Item(Node(ItemAt(f, k), LinkAt(f, k)),
         if f.marker then None else Some(f.text[k]),
         (set d | d in f.deletions),
         f.visible)
  }

  function ItemsOf(f: Fragment): (r: seq<Item>)
    ensures |r| == Length(f)
  {
    seq(Length(f), k requires 0 <= k < Length(f) => ItemOf(f, k))
  }

  function Items(frags: seq<Fragment>): seq<Item> {
    if frags == [] then [] else Items(frags[..|frags| - 1]) + ItemsOf(frags[|frags| - 1])
  }

  function NodesOf(items: seq<Item>): (r: Doc)
    ensures |r| == |items|
  {
    seq(|items|, i requires 0 <= i < |items| => items[i].node)
  }

  function DocOf(frags: seq<Fragment>): Doc {
    NodesOf(Items(frags))
  }

  lemma DocIsNodes(frags: seq<Fragment>)
    ensures DocOf(frags) == NodesOf(Items(frags))
  {
  }

  predicate NonEmptyRuns(frags: seq<Fragment>) {
    forall i :: 0 <= i < |frags| ==> Length(frags[i]) > 0
  }

  lemma {:induction false} ItemsConcat(a: seq<Fragment>, b: seq<Fragment>)
    ensures Items(a + b) == Items(a) + Items(b)
    decreases |b|
  {
    hide ItemsOf;
    if b == [] {
      assert a + b == a;
    } else {
      ItemsConcat(a, b[..|b| - 1]);
      assert (a + b)[..|a + b| - 1] == a + b[..|b| - 1];
    }
  }

  lemma ItemsSingle(f: Fragment)
    ensures Items([f]) == ItemsOf(f)
  {
    assert [f][..0] == [];
  }

  lemma ItemsPair(f: Fragment, g: Fragment)
    ensures Items([f, g]) == ItemsOf(f) + ItemsOf(g)
  {
    assert [f, g] == [f] + [g];
    ItemsConcat([f], [g]);
    ItemsSingle(f);
    ItemsSingle(g);
  }

  lemma ItemsTriple(f: Fragment, g: Fragment, h: Fragment)
    ensures Items([f, g, h]) == ItemsOf(f) + ItemsOf(g) + ItemsOf(h)
  {
    assert [f, g, h] == [f, g] + [h];
    ItemsConcat([f, g], [h]);
    ItemsPair(f, g);
    ItemsSingle(h);
  }

  /** Replacing one run by others replaces just its items. */
  lemma ItemsReplace(frags: seq<Fragment>, i: nat, mid: seq<Fragment>)
    requires i < |frags|
    ensures Items(frags[..i] + mid + frags[i + 1..]) == Items(frags[..i]) + Items(mid) + Items(frags[i + 1..])
    ensures Items(frags) == Items(frags[..i]) + ItemsOf(frags[i]) + Items(frags[i + 1..])
  {
    ItemsConcat(frags[..i] + mid, frags[i + 1..]);
    ItemsConcat(frags[..i], mid);
    assert frags == frags[..i] + [frags[i]] + frags[i + 1..];
    ItemsConcat(frags[..i] + [frags[i]], frags[i + 1..]);
    ItemsConcat(frags[..i], [frags[i]]);
    ItemsSingle(frags[i]);
  }

  /** The deletion lists that occur. */
  ghost function DelLists(frags: seq<Fragment>): set<seq<Identity>> {
    set f | f in frags :: f.deletions
  }

  // ---- Positions ---------------------------------------------------------

  /** A place in a fragment list: a run and an offset in it. */
  datatype Pos = Pos(frag: nat, off: nat)

  predicate PosLess(a: Pos, b: Pos) {
    a.frag < b.frag || (a.frag == b.frag && a.off < b.off)
  }

  predicate InRun(frags: seq<Fragment>, p: Pos) {
    p.frag < |frags| && p.off < Length(frags[p.frag])
  }

  predicate InRunOrEnd(frags: seq<Fragment>, p: Pos) {
    InRun(frags, p) || p == Pos(|frags|, 0)
  }

  /** How many items come before run `i`. */
  function Start(frags: seq<Fragment>, i: nat): nat
    requires i <= |frags|
  {
    |Items(frags[..i])|
  }

  function Flat(frags: seq<Fragment>, p: Pos): nat
    requires p.frag <= |frags|
  {
    Start(frags, p.frag) + p.off
  }

  lemma StartStep(frags: seq<Fragment>, i: nat)
    requires i < |frags|
    ensures Start(frags, i + 1) == Start(frags, i) + Length(frags[i])
  {
    assert frags[..i + 1][..i] == frags[..i];
  }

  lemma StartEnds(frags: seq<Fragment>)
    ensures Start(frags, 0) == 0 && Start(frags, |frags|) == |Items(frags)|
  {
    assert frags[..|frags|] == frags;
  }

  lemma {:induction false} StartMonotone(frags: seq<Fragment>, i: nat, j: nat)
    requires i <= j <= |frags|
    ensures Start(frags, i) <= Start(frags, j)
    ensures i < j ==> Start(frags, i) + Length(frags[i]) <= Start(frags, j)
    decreases j
  {
    if i < j {
      StartStep(frags, j - 1);
      StartMonotone(frags, i, j - 1);
    }
  }

  lemma FlatItem(frags: seq<Fragment>, p: Pos)
    requires InRun(frags, p)
    ensures Flat(frags, p) < |Items(frags)|
    ensures Items(frags)[Flat(frags, p)] == ItemOf(frags[p.frag], p.off)
    ensures DocOf(frags)[Flat(frags, p)] == ItemOf(frags[p.frag], p.off).node
  {
    hide Items;
    var i := p.frag;
    assert frags == frags[..i + 1] + frags[i + 1..];
    assert frags[..i + 1] == frags[..i] + [frags[i]];
    ItemsConcat(frags[..i + 1], frags[i + 1..]);
    ItemsConcat(frags[..i], [frags[i]]);
    ItemsSingle(frags[i]);
  }

  lemma FlatOrder(frags: seq<Fragment>, a: Pos, b: Pos)
    requires NonEmptyRuns(frags) && InRunOrEnd(frags, a) && InRunOrEnd(frags, b)
    ensures PosLess(a, b) <==> Flat(frags, a) < Flat(frags, b)
    ensures a == b <==> Flat(frags, a) == Flat(frags, b)
  {
    if a.frag < b.frag { StartMonotone(frags, a.frag, b.frag); }
    if b.frag < a.frag { StartMonotone(frags, b.frag, a.frag); }
  }

  function NextPos(frags: seq<Fragment>, p: Pos): Pos
    requires InRun(frags, p)
  {
    if p.off + 1 < Length(frags[p.frag]) then Pos(p.frag, p.off + 1) else Pos(p.frag + 1, 0)
  }

  lemma FlatNext(frags: seq<Fragment>, p: Pos)
    requires NonEmptyRuns(frags) && InRun(frags, p)
    ensures InRunOrEnd(frags, NextPos(frags, p))
    ensures Flat(frags, NextPos(frags, p)) == Flat(frags, p) + 1
  {
    StartStep(frags, p.frag);
  }

  function PrevPos(frags: seq<Fragment>, p: Pos): Pos
    requires NonEmptyRuns(frags) && InRun(frags, p) && p != Pos(0, 0)
  {
    if p.off > 0 then Pos(p.frag, p.off - 1) else Pos(p.frag - 1, Length(frags[p.frag - 1]) - 1)
  }

  lemma FlatPrev(frags: seq<Fragment>, p: Pos)
    requires NonEmptyRuns(frags) && InRun(frags, p) && p != Pos(0, 0)
    ensures InRun(frags, PrevPos(frags, p)) && Flat(frags, PrevPos(frags, p)) + 1 == Flat(frags, p)
  {
    if p.off == 0 { StartStep(frags, p.frag - 1); }
  }

  lemma FlatEnd(frags: seq<Fragment>, p: Pos)
    requires NonEmptyRuns(frags) && InRunOrEnd(frags, p)
    ensures Flat(frags, p) == |Items(frags)| <==> p == Pos(|frags|, 0)
    ensures Flat(frags, p) <= |Items(frags)|
  {
    StartEnds(frags);
    FlatOrder(frags, p, Pos(|frags|, 0));
    if InRun(frags, p) { FlatItem(frags, p); }
  }

  /** The position of the item with flat index `i`. */
  ghost function Unflat(frags: seq<Fragment>, i: nat): (p: Pos)
    requires i < |Items(frags)|
    ensures InRun(frags, p) && Flat(frags, p) == i
  {
    var last := |frags| - 1;
    assert frags[..last][..last] == frags[..last];
    if i < Start(frags, last) then
      var p := Unflat(frags[..last], i);
      assert frags[..last][..p.frag] == frags[..p.frag];
      p
    else
      Pos(last, i - Start(frags, last))
  }

  // ---- Splitting ---------------------------------------------------------

  function Prefix(f: Fragment, k: nat): Fragment
    requires !f.marker && k <= |f.text|
  {
    f.(text := f.text[..k])
  }

  /** The tail of a cut before item `k`: its link is the one item `k` already had. */
  function Suffix(f: Fragment, k: nat): Fragment
    requires !f.marker && k <= |f.text|
  {
    f.(origin := ItemAt(f, k), link := LinkAt(f, k), text := f.text[k..])
  }

  /** A cut is a presentation artifact: the two parts hold the same items. */
  lemma SplitKeepsItems(f: Fragment, k: nat)
    requires !f.marker && 0 < k <= |f.text|
    ensures ItemsOf(Prefix(f, k)) + ItemsOf(Suffix(f, k)) == ItemsOf(f)
  {
    var a, b := Prefix(f, k), Suffix(f, k);
    assert forall j :: 0 <= j < |f.text| - k ==> ItemOf(b, j) == ItemOf(f, k + j);
    assert forall j :: 0 <= j < k ==> ItemOf(a, j) == ItemOf(f, j);
  }
}
