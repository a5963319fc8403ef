/** Local edits, by the general path: mint every insertion against the old
    document, tombstone the replaced ranges, integrate the new runs.

    The visible text is then exactly the edited text, and the document is the one
    every other replica gets from the operation the edit emits. */
module LocalEdits {
  import opened Ids
  import opened FugueOrder
  import opened Fragments
  import opened Histories
  import opened Indexes
  import opened Sorting
  import opened DeletionPacking
  import opened DeletionRuns
  import opened VisibleText
  import opened LocalPlacement

  // ---- Offsets and runs --------------------------------------------------

  predicate Shows(f: Fragment) {
    f.visible && !f.marker
  }

  lemma {:induction false} TextOfRun(f: Fragment, k: nat)
    requires k <= Length(f)
    ensures Text(ItemsOf(f)[..k]) == if Shows(f) then f.text[..k] else []
  {
    if k == 0 {
      assert ItemsOf(f)[..k] == [];
    } else {
      TextOfRun(f, k - 1);
      assert ItemsOf(f)[..k] == ItemsOf(f)[..k - 1] + [ItemOf(f, k - 1)];
      AppendText(ItemsOf(f)[..k - 1], ItemOf(f, k - 1));
      hide Text;
      if Shows(f) { assert f.text[..k] == f.text[..k - 1] + [f.text[k - 1]]; }
    }
  }

  /** Visible scalars before run `i`. */
  function RunStart(frags: seq<Fragment>, i: nat): nat
    requires i <= |frags|
  {
    |Text(Items(frags[..i]))|
  }

  function ShownLength(f: Fragment): nat {
    if Shows(f) then |f.text| else 0
  }

  lemma {:induction false} RunStartStep(frags: seq<Fragment>, i: nat)
    requires i < |frags|
    ensures RunStart(frags, i + 1) == RunStart(frags, i) + ShownLength(frags[i])
  {
    assert frags[..i + 1] == frags[..i] + [frags[i]];
    ItemsConcat(frags[..i], [frags[i]]);
    ItemsSingle(frags[i]);
    TextConcat(Items(frags[..i]), ItemsOf(frags[i]));
    TextOfRun(frags[i], Length(frags[i]));
    assert ItemsOf(frags[i])[..Length(frags[i])] == ItemsOf(frags[i]);
  }

  lemma {:induction false} PrefixItems(frags: seq<Fragment>, i: nat, k: nat)
    requires i < |frags| && k <= Length(frags[i])
    ensures Start(frags, i) + k <= |Items(frags)|
    ensures Items(frags)[..Start(frags, i) + k] == Items(frags[..i]) + ItemsOf(frags[i])[..k]
  {
    ItemsReplace(frags, i, []);
  }

  lemma {:induction false} OffsetInRun(frags: seq<Fragment>, i: nat, k: nat)
    requires i < |frags| && k <= Length(frags[i])
    ensures Start(frags, i) + k <= |Items(frags)|
    ensures Offset(Items(frags), Start(frags, i) + k) == RunStart(frags, i) + if Shows(frags[i]) then k else 0
  {
    PrefixItems(frags, i, k);
    TextConcat(Items(frags[..i]), ItemsOf(frags[i])[..k]);
    TextOfRun(frags[i], k);
  }

  lemma {:induction false} RunStartEnd(frags: seq<Fragment>)
    ensures RunStart(frags, 0) == 0 && RunStart(frags, |frags|) == |Text(Items(frags))|
  {
    assert frags[..|frags|] == frags;
  }

  /** The element an insertion at visible offset `start` goes right after: the
      visible scalar that ends there, or nothing at the start. */
  method VisibleElementBefore(frags: seq<Fragment>, start: nat) returns (left: Option<Identity>, ghost p: nat)
    requires start <= |Text(Items(frags))|
    ensures IsPlace(Items(frags), start, p) && left == LeftAt(DocOf(frags), p)
  {
    RunStartEnd(frags);
    if start == 0 {
      assert Items(frags)[..0] == [];
      return None, 0;
    }
    var seen := 0;
    for i := 0 to |frags|
      invariant seen == RunStart(frags, i) < start
    {
      var f := frags[i];
      RunStartStep(frags, i);
      if Shows(f) {
        if seen + |f.text| >= start {
          FoundPlace(frags, i, start - seen);
          return Some(ItemAt(f, start - seen - 1)), Start(frags, i) + (start - seen);
        }
        seen := seen + |f.text|;
      }
    }
    left := None;
    assert false;
  }

  lemma {:induction false} FoundPlace(frags: seq<Fragment>, i: nat, k: nat)
    requires i < |frags| && Shows(frags[i]) && 0 < k <= |frags[i].text|
    ensures IsPlace(Items(frags), RunStart(frags, i) + k, Start(frags, i) + k)
    ensures LeftAt(DocOf(frags), Start(frags, i) + k) == Some(ItemAt(frags[i], k - 1))
  {
    OffsetInRun(frags, i, k);
    FlatItem(frags, Pos(i, k - 1));
  }

  // ---- Splitting at visible offsets --------------------------------------

  /** No visible run straddles the offset. */
  ghost predicate CutAt(frags: seq<Fragment>, o: nat) {
    forall i :: 0 <= i < |frags| && Shows(frags[i]) ==>
      RunStart(frags, i) + |frags[i].text| <= o || o <= RunStart(frags, i)
  }

  lemma {:induction false} SplitStarts(frags: seq<Fragment>, i: nat, k: nat, j: nat)
    requires i < |frags| && !frags[i].marker && 0 < k <= |frags[i].text| && j <= |frags| + 1
    ensures j <= i ==> RunStart(SplitAt(frags, i, k), j) == RunStart(frags, j)
    ensures j == i + 1 ==> RunStart(SplitAt(frags, i, k), j) == RunStart(frags, i) + if Shows(frags[i]) then k else 0
    ensures j > i + 1 ==> RunStart(SplitAt(frags, i, k), j) == RunStart(frags, j - 1)
  {
    var r := SplitAt(frags, i, k);
    if j <= i {
      assert r[..j] == frags[..j];
    } else if j == i + 1 {
      assert r[..i] == frags[..i] && r[i] == Prefix(frags[i], k);
      RunStartStep(r, i);
    } else {
      assert r[..j] == SplitAt(frags[..j - 1], i, k);
      SplitItems(frags[..j - 1], i, k);
    }
  }

  lemma {:induction false} SplitKeepsCut(frags: seq<Fragment>, i: nat, k: nat, o: nat)
    requires i < |frags| && !frags[i].marker && 0 < k < |frags[i].text| && CutAt(frags, o)
    ensures CutAt(SplitAt(frags, i, k), o)
  {
    var r := SplitAt(frags, i, k);
    forall j | 0 <= j < |r| && Shows(r[j])
      ensures RunStart(r, j) + |r[j].text| <= o || o <= RunStart(r, j)
    {
      SplitStarts(frags, i, k, j);
      if j == i || j == i + 1 {
        assert Shows(frags[i]);
      } else {
        assert r[j] == frags[if j < i then j else j - 1];
      }
    }
  }

  /** Split the visible run that straddles the offset, if one does. */
  method SplitAtOffset(frags: seq<Fragment>, o: nat) returns (r: seq<Fragment>)
    requires NonEmptyRuns(frags)
    ensures NonEmptyRuns(r) && Items(r) == Items(frags) && CutAt(r, o)
    ensures forall x :: CutAt(frags, x) ==> CutAt(r, x)
    ensures forall d :: CleanFor(frags, d) ==> CleanFor(r, d)
  {
    var seen := 0;
    for i := 0 to |frags|
      invariant seen == RunStart(frags, i)
      invariant forall j :: 0 <= j < i && Shows(frags[j]) ==>
                  RunStart(frags, j) + |frags[j].text| <= o || o <= RunStart(frags, j)
    {
      var f := frags[i];
      RunStartStep(frags, i);
      if Shows(f) {
        if seen < o < seen + |f.text| {
          CutMade(frags, i, o);
          CutIsClean(frags, i, o - seen);
          return SplitAt(frags, i, o - seen);
        }
        seen := seen + |f.text|;
      }
    }
    return frags;
  }

  /** No run records a deletion twice, and no visible one records `d`. */
  ghost predicate CleanFor(frags: seq<Fragment>, d: Identity) {
    forall i :: 0 <= i < |frags| ==> RunClean(frags[i], d)
  }

  predicate RunClean(f: Fragment, d: Identity) {
    NoRepeats(f.deletions) && (f.visible ==> d !in f.deletions)
  }

  lemma {:induction false} CutIsClean(frags: seq<Fragment>, i: nat, k: nat)
    requires i < |frags| && !frags[i].marker && k <= |frags[i].text|
    ensures forall d :: CleanFor(frags, d) ==> CleanFor(SplitAt(frags, i, k), d)
  {
    hide NoRepeats;
    forall d | CleanFor(frags, d)
      ensures CleanFor(SplitAt(frags, i, k), d)
    {
      assert RunClean(frags[i], d);
    }
  }

  lemma {:induction false} CutMade(frags: seq<Fragment>, i: nat, o: nat)
    requires NonEmptyRuns(frags) && i < |frags| && Shows(frags[i])
    requires RunStart(frags, i) < o < RunStart(frags, i) + |frags[i].text|
    ensures var r := SplitAt(frags, i, o - RunStart(frags, i));
            && NonEmptyRuns(r) && Items(r) == Items(frags) && CutAt(r, o)
            && forall x :: CutAt(frags, x) ==> CutAt(r, x)
  {
    var k := o - RunStart(frags, i);
    var r := SplitAt(frags, i, k);
    SplitItems(frags, i, k);
    forall j | 0 <= j < |r| && Shows(r[j])
      ensures RunStart(r, j) + |r[j].text| <= o || o <= RunStart(r, j)
    {
      SplitStarts(frags, i, k, j);
      RunStartOrder(frags, i, j);
    }
    forall x | CutAt(frags, x)
      ensures CutAt(r, x)
    {
      SplitKeepsCut(frags, i, k, x);
    }
  }

  lemma {:induction false} RunStartOrder(frags: seq<Fragment>, i: nat, j: nat)
    requires i < |frags|
    ensures j < i ==> RunStart(frags, j) + ShownLength(frags[j]) <= RunStart(frags, i)
    ensures i + 1 < j <= |frags| ==> RunStart(frags, i) + ShownLength(frags[i]) <= RunStart(frags, j - 1)
  {
    if j < i { RunStartMonotone(frags, j, i); }
    if i + 1 < j <= |frags| { RunStartMonotone(frags, i, j - 1); }
  }

  lemma {:induction false} RunStartMonotone(frags: seq<Fragment>, i: nat, j: nat)
    requires i < j <= |frags|
    ensures RunStart(frags, i) + ShownLength(frags[i]) <= RunStart(frags, j)
    decreases j
  {
    RunStartStep(frags, j - 1);
    if i < j - 1 { RunStartMonotone(frags, i, j - 1); }
  }

  // ---- Tombstoning -------------------------------------------------------

  function HideRun(f: Fragment, d: Identity): Fragment {
    f.(deletions := f.deletions + [d], visible := false)
  }

  function RunIds(f: Fragment): (r: seq<Identity>)
    ensures |r| == Length(f)
  {
    seq(Length(f), c requires 0 <= c < Length(f) => ItemAt(f, c))
  }

  /** The run lies in the range. */
  predicate Inside(frags: seq<Fragment>, i: nat, r: Range)
    requires i < |frags|
  {
    Shows(frags[i]) && r.start <= RunStart(frags, i) && RunStart(frags, i) + |frags[i].text| <= r.end
  }

  lemma {:induction false} HideRunItems(f: Fragment, d: Identity, k: nat)
    requires k < Length(f)
    ensures ItemOf(HideRun(f, d), k) == Hide(ItemOf(f, k), d)
  {
    assert (set x | x in f.deletions + [d]) == (set x | x in f.deletions) + {d};
  }

  /** With the runs cut at both ends, a run's items are in the range together. */
  lemma {:induction false} ChosenTogether(frags: seq<Fragment>, i: nat, k: nat, r: Range)
    requires i < |frags| && k < Length(frags[i]) && CutAt(frags, r.start) && CutAt(frags, r.end)
    ensures Start(frags, i) + k < |Items(frags)| && Items(frags)[Start(frags, i) + k] == ItemOf(frags[i], k)
    ensures Chosen(Items(frags), [r], Start(frags, i) + k) <==> Inside(frags, i, r)
  {
    FlatItem(frags, Pos(i, k));
    OffsetInRun(frags, i, k);
    assert forall o: nat :: InRanges([r], o) <==> r.start <= o < r.end by {
      assert r in [r];
    }
  }

  lemma {:induction false} HideStep(frags: seq<Fragment>, i: nat, r: Range, d: Identity)
    requires i < |frags| && CutAt(frags, r.start) && CutAt(frags, r.end)
    ensures Start(frags, i) <= Start(frags, i + 1) <= |Items(frags)|
    ensures var f := if Inside(frags, i, r) then HideRun(frags[i], d) else frags[i];
            HideRanges(Items(frags), [r], d)[..Start(frags, i + 1)]
            == HideRanges(Items(frags), [r], d)[..Start(frags, i)] + ItemsOf(f)
  {
    var f := if Inside(frags, i, r) then HideRun(frags[i], d) else frags[i];
    var hidden, lo := HideRanges(Items(frags), [r], d), Start(frags, i);
    StartStep(frags, i);
    PrefixItems(frags, i, Length(frags[i]));
    forall k | 0 <= k < Length(f)
      ensures hidden[lo + k] == ItemsOf(f)[k]
    {
      HideItem(frags, i, r, d, k);
    }
    hide *;
    SliceGrows(hidden, lo, ItemsOf(f));
  }

  lemma {:induction false} SliceGrows<T>(s: seq<T>, lo: nat, t: seq<T>)
    requires lo + |t| <= |s| && forall k :: 0 <= k < |t| ==> s[lo + k] == t[k]
    ensures s[..lo + |t|] == s[..lo] + t
  {
  }

  lemma {:induction false} HideItem(frags: seq<Fragment>, i: nat, r: Range, d: Identity, k: nat)
    requires i < |frags| && k < Length(frags[i]) && CutAt(frags, r.start) && CutAt(frags, r.end)
    ensures Start(frags, i) + k < |Items(frags)|
    ensures HideRanges(Items(frags), [r], d)[Start(frags, i) + k]
            == ItemOf(if Inside(frags, i, r) then HideRun(frags[i], d) else frags[i], k)
  {
    ChosenTogether(frags, i, k, r);
    HideRunItems(frags[i], d, k);
    hide CutAt, Inside, Chosen, Items;
  }

  lemma {:induction false} ChosenStep(frags: seq<Fragment>, i: nat, r: Range)
    requires i < |frags| && CutAt(frags, r.start) && CutAt(frags, r.end)
    ensures Start(frags, i) <= Start(frags, i + 1) <= |Items(frags)|
    ensures forall id :: ChosenBelow(Items(frags), r, Start(frags, i + 1), id) <==>
              ChosenBelow(Items(frags), r, Start(frags, i), id) || (Inside(frags, i, r) && id in RunIds(frags[i]))
  {
    var items, f := Items(frags), frags[i];
    var lo: nat := Start(frags, i);
    StartStep(frags, i);
    PrefixItems(frags, i, Length(f));
    forall k | 0 <= k < Length(f)
      ensures items[lo + k].node.id == RunIds(f)[k] && (Chosen(items, [r], lo + k) <==> Inside(frags, i, r))
    {
      ChosenTogether(frags, i, k, r);
    }
    hide Chosen, Inside, Items, RunIds, Start;
    forall id
      ensures ChosenBelow(items, r, lo + Length(f), id) <==>
                ChosenBelow(items, r, lo, id) || (Inside(frags, i, r) && id in RunIds(f))
    {
      if ChosenBelow(items, r, lo + Length(f), id) && !ChosenBelow(items, r, lo, id) {
        var j :| 0 <= j < lo + Length(f) && Chosen(items, [r], j) && items[j].node.id == id;
        assert RunIds(f)[j - lo] == id;
      }
      if Inside(frags, i, r) && id in RunIds(f) {
        var k :| 0 <= k < Length(f) && RunIds(f)[k] == id;
        assert Chosen(items, [r], lo + k);
      }
    }
  }

  /** One of the first `n` items is in the range and has this identity. */
  ghost predicate ChosenBelow(items: seq<Item>, r: Range, n: nat, id: Identity)
    requires n <= |items|
  {
    exists j :: 0 <= j < n && Chosen(items, [r], j) && items[j].node.id == id
  }

  /** Tombstone the visible runs of one range; reports the identities. */
  method HideBetween(frags: seq<Fragment>, range: Range, d: Identity) returns (r: seq<Fragment>, ids: seq<Identity>)
    requires NonEmptyRuns(frags) && CutAt(frags, range.start) && CutAt(frags, range.end)
    ensures NonEmptyRuns(r) && Items(r) == HideRanges(Items(frags), [range], d)
    ensures forall id :: id in ids <==> id in ChosenIds(Items(frags), [range])
    ensures CleanFor(frags, d) ==> CleanFor(r, d)
    ensures |ids| <= if range.start < range.end then range.end - range.start else 0
  {
    r, ids := [], [];
    var seen := 0;
    StartEnds(frags);
    StartHiding(frags, range, d);
    hide CutAt, HideRanges, ChosenBelow, Chosen, Text, Items, RunIds, ChosenIds, RunClean;
    for i := 0 to |frags|
      invariant seen == RunStart(frags, i) && Start(frags, i) <= |Items(frags)|
      invariant NonEmptyRuns(r) && Items(r) == HideRanges(Items(frags), [range], d)[..Start(frags, i)]
      invariant forall id :: id in ids <==> ChosenBelow(Items(frags), range, Start(frags, i), id)
      invariant CleanFor(frags, d) ==> CleanFor(r, d)
      invariant |ids| <= if range.start < seen then seen - range.start else 0
      invariant |ids| <= if range.start < range.end then range.end - range.start else 0
    {
      var f := frags[i];
      RunStartStep(frags, i);
      HideStep(frags, i, range, d);
      ChosenStep(frags, i, range);
      if Shows(f) {
        var from := seen;
        seen := seen + |f.text|;
        if from >= range.start && seen <= range.end {
          ids := ids + RunIds(f);
          HiddenIsClean(f, d);
          f := HideRun(f, d);
        }
      }
      ItemsConcat(r, [f]);
      ItemsSingle(f);
      r := r + [f];
    }
    assert HideRanges(Items(frags), [range], d)[..|Items(frags)|] == HideRanges(Items(frags), [range], d);
    ChosenAll(Items(frags), range);
  }

  lemma {:induction false} HiddenIsClean(f: Fragment, d: Identity)
    requires Shows(f)
    ensures RunClean(f, d) ==> RunClean(HideRun(f, d), d)
  {
  }

  lemma {:induction false} StartHiding(frags: seq<Fragment>, range: Range, d: Identity)
    ensures Items([]) == HideRanges(Items(frags), [range], d)[..0] && RunStart(frags, 0) == 0
    ensures forall id :: !ChosenBelow(Items(frags), range, 0, id)
  {
  }

  lemma {:induction false} ChosenAll(items: seq<Item>, range: Range)
    ensures forall id :: ChosenBelow(items, range, |items|, id) <==> id in ChosenIds(items, [range])
  {
  }

  // ---- All ranges, right to left -----------------------------------------

  /** Hiding from offset `s` on leaves offsets up to `s` as they are. */
  lemma {:induction false} HiddenOffset(items: seq<Item>, ranges: seq<Range>, d: Identity, s: nat, i: nat)
    requires i <= |items| && forall r :: r in ranges ==> s <= r.start
    ensures if Offset(items, i) <= s then Offset(HideRanges(items, ranges, d), i) == Offset(items, i)
            else s <= Offset(HideRanges(items, ranges, d), i)
    decreases i
  {
    var hidden := HideRanges(items, ranges, d);
    if i == 0 {
      assert items[..0] == [] && hidden[..0] == [];
    } else {
      HiddenOffset(items, ranges, d, s, i - 1);
      OffsetStep(items, i - 1);
      OffsetStep(hidden, i - 1);
      assert Chosen(items, ranges, i - 1) ==> s <= Offset(items, i - 1);
    }
  }

  /** Hiding a range before ranges already hidden hides them all. */
  lemma {:induction false} HideEarlier(items: seq<Item>, ranges: seq<Range>, d: Identity, n: nat)
    requires ranges != [] && InSequence(ranges, n)
    ensures var later := HideRanges(items, ranges[1..], d);
            && HideRanges(later, [ranges[0]], d) == HideRanges(items, ranges, d)
            && ChosenIds(items, ranges) == ChosenIds(items, ranges[1..]) + ChosenIds(later, [ranges[0]])
  {
    var r, rest := ranges[0], ranges[1..];
    var later := HideRanges(items, rest, d);
    forall i | 0 <= i < |items|
      ensures Chosen(items, ranges, i) <==> Chosen(items, rest, i) || Chosen(later, [r], i)
      ensures !(Chosen(items, rest, i) && Chosen(later, [r], i))
    {
      ChosenSplit(items, ranges, d, n, i);
    }
    hide Chosen, InSequence;
    SplitIds(items, later, ranges, rest, r);
  }

  lemma {:induction false} SplitIds(items: seq<Item>, later: seq<Item>, ranges: seq<Range>, rest: seq<Range>, r: Range)
    requires |later| == |items| && forall i :: 0 <= i < |items| ==> later[i].node == items[i].node
    requires forall i :: 0 <= i < |items| ==>
               (Chosen(items, ranges, i) <==> Chosen(items, rest, i) || Chosen(later, [r], i))
    ensures ChosenIds(items, ranges) == ChosenIds(items, rest) + ChosenIds(later, [r])
  {
    hide Chosen;
  }

  lemma {:induction false} ChosenSplit(items: seq<Item>, ranges: seq<Range>, d: Identity, n: nat, i: nat)
    requires ranges != [] && InSequence(ranges, n) && i < |items|
    ensures var later := HideRanges(items, ranges[1..], d);
            && (Chosen(items, ranges, i) <==> Chosen(items, ranges[1..], i) || Chosen(later, [ranges[0]], i))
            && !(Chosen(items, ranges[1..], i) && Chosen(later, [ranges[0]], i))
  {
    var r, rest := ranges[0], ranges[1..];
    forall x | x in rest
      ensures r.end <= x.start
    {
      var j :| 0 <= j < |rest| && rest[j] == x;
      assert ranges[j + 1] == x;
    }
    HiddenOffset(items, rest, d, r.end, i);
    RangesSplit(ranges, Offset(items, i));
    assert forall o: nat :: InRanges([r], o) <==> r.start <= o < r.end by {
      assert r in [r];
    }
  }

  lemma {:induction false} RangesSplit(ranges: seq<Range>, o: nat)
    requires ranges != []
    ensures InRanges(ranges, o) <==> (ranges[0].start <= o < ranges[0].end) || InRanges(ranges[1..], o)
  {
    assert ranges == [ranges[0]] + ranges[1..];
  }

  /** How many scalars the ranges take out. */
  function Removed(ranges: seq<Range>): nat {
    if ranges == [] then 0
    else (if ranges[0].start < ranges[0].end then ranges[0].end - ranges[0].start else 0) + Removed(ranges[1..])
  }

  lemma {:induction false} RemovedOne(range: Range)
    ensures Removed([range]) == if range.start < range.end then range.end - range.start else 0
  {
    assert [range][1..] == [];
  }

  lemma {:induction false} RemovedNext(ranges: seq<Range>, k: nat)
    requires k < |ranges|
    ensures Removed(ranges[k..]) == Removed([ranges[k]]) + Removed(ranges[k + 1..])
  {
    RemovedOne(ranges[k]);
    assert ranges[k..][1..] == ranges[k + 1..] && ranges[k..][0] == ranges[k];
  }

  /** How many offsets below `t` are in a range. */
  function RangesBelow(ranges: seq<Range>, t: nat): nat {
    if ranges == [] then 0
    else
      var r := ranges[0];
      (if t <= r.start || r.end <= r.start then 0 else if t < r.end then t - r.start else r.end - r.start)
      + RangesBelow(ranges[1..], t)
  }

  lemma {:induction false} RangesBelowStep(ranges: seq<Range>, n: nat, t: nat)
    requires InSequence(ranges, n)
    ensures RangesBelow(ranges, t + 1) == RangesBelow(ranges, t) + if InRanges(ranges, t) then 1 else 0
    ensures InRanges(ranges, t) ==> ranges != [] && ranges[0].start <= t
  {
    if ranges != [] {
      var r, rest := ranges[0], ranges[1..];
      RangesSplit(ranges, t);
      LaterInSequence(ranges, n, 1);
      RangesBelowStep(rest, n, t);
    }
  }

  lemma {:induction false} RangesBelowAll(ranges: seq<Range>, n: nat)
    requires InSequence(ranges, n)
    ensures RangesBelow(ranges, n) == Removed(ranges)
  {
    if ranges != [] {
      LaterInSequence(ranges, n, 1);
      RangesBelowAll(ranges[1..], n);
    }
  }

  lemma {:induction false} NothingBelow(ranges: seq<Range>)
    ensures RangesBelow(ranges, 0) == 0
  {
    if ranges != [] { NothingBelow(ranges[1..]); }
  }

  /** The identities chosen among the first `i` items. */
  ghost function ChosenTo(items: seq<Item>, ranges: seq<Range>, i: nat): set<Identity>
    requires i <= |items|
  {
    set j | 0 <= j < i && Chosen(items, ranges, j) :: items[j].node.id
  }

  lemma {:induction false} ChosenToStep(items: seq<Item>, ranges: seq<Range>, i: nat)
    requires Distinct(NodesOf(items)) && i < |items|
    ensures |ChosenTo(items, ranges, i + 1)| == |ChosenTo(items, ranges, i)| + if Chosen(items, ranges, i) then 1 else 0
  {
    var id := items[i].node.id;
    forall j | 0 <= j < i
      ensures items[j].node.id != id
    {
      assert NodesOf(items)[j].id != NodesOf(items)[i].id;
    }
    hide Chosen;
    if Chosen(items, ranges, i) {
      assert ChosenTo(items, ranges, i + 1) == ChosenTo(items, ranges, i) + {id};
    } else {
      assert ChosenTo(items, ranges, i + 1) == ChosenTo(items, ranges, i);
    }
  }

  lemma {:induction false} ChosenToCount(items: seq<Item>, ranges: seq<Range>, n: nat, i: nat)
    requires Distinct(NodesOf(items)) && InSequence(ranges, n) && i <= |items|
    ensures |ChosenTo(items, ranges, i)| == RangesBelow(ranges, Offset(items, i))
    decreases i
  {
    if i == 0 {
      OffsetEnds(items);
      NothingBelow(ranges);
      assert ChosenTo(items, ranges, 0) == {};
    } else {
      ChosenToCount(items, ranges, n, i - 1);
      ChosenToStep(items, ranges, i - 1);
      OffsetStep(items, i - 1);
      RangesBelowStep(ranges, n, Offset(items, i - 1));
      hide ChosenTo, RangesBelow, InSequence, InRanges, Offset;
    }
  }

  /** Ranges choose as many items as they take out scalars. */
  lemma {:induction false} ChosenCount(items: seq<Item>, ranges: seq<Range>)
    requires Distinct(NodesOf(items)) && InSequence(ranges, |Text(items)|)
    ensures |ChosenIds(items, ranges)| == Removed(ranges)
  {
    hide Chosen, InSequence, RangesBelow, Removed, Text;
    ChosenToCount(items, ranges, |Text(items)|, |items|);
    OffsetEnds(items);
    RangesBelowAll(ranges, |Text(items)|);
    assert ChosenTo(items, ranges, |items|) == ChosenIds(items, ranges);
  }

  /** How many deletion runs there are when the chosen identities are packed one by
      one. */
  ghost function FlatRunCount(items: seq<Item>, ranges: seq<Range>): nat {
    |Heads(Singles(ChosenIds(items, ranges)))|
  }

  /** The tombstoned identities come once each. */
  lemma {:induction false} ChosenOnce(items: seq<Item>, ranges: seq<Range>, ids: seq<Identity>)
    requires Distinct(NodesOf(items)) && InSequence(ranges, |Text(items)|)
    requires |ids| <= Removed(ranges) && forall id :: id in ids <==> id in ChosenIds(items, ranges)
    ensures NoneTwice(ids) && |Heads(Singles(set id | id in ids))| == FlatRunCount(items, ranges)
  {
    ChosenCount(items, ranges);
    hide ChosenIds, InSequence, Heads, Singles;
    assert (set id | id in ids) == ChosenIds(items, ranges);
    FewElements(ids);
  }

  /** Right to left, so that offsets of the ranges still to come stay valid. */
  method TombstoneRanges(frags: seq<Fragment>, ranges: seq<Range>, d: Identity) returns (r: seq<Fragment>, ids: seq<Identity>)
    requires NonEmptyRuns(frags) && InSequence(ranges, |Text(Items(frags))|)
    ensures NonEmptyRuns(r) && Items(r) == HideRanges(Items(frags), ranges, d)
    ensures forall id :: id in ids <==> id in ChosenIds(Items(frags), ranges)
    ensures CleanFor(frags, d) ==> CleanFor(r, d)
    ensures |ids| <= Removed(ranges)
  {
    hide CleanFor;
    r, ids := frags, [];
    var k := |ranges|;
    NothingHidden(Items(frags), d);
    assert ranges[k..] == [];
    while k > 0
      invariant k <= |ranges| && NonEmptyRuns(r)
      invariant Items(r) == HideRanges(Items(frags), ranges[k..], d)
      invariant forall id :: id in ids <==> id in ChosenIds(Items(frags), ranges[k..])
      invariant CleanFor(frags, d) ==> CleanFor(r, d)
      invariant |ids| <= Removed(ranges[k..])
    {
      k := k - 1;
      assert ranges[k..][1..] == ranges[k + 1..] && ranges[k..][0] == ranges[k];
      LaterInSequence(ranges, |Text(Items(frags))|, k);
      HideEarlier(Items(frags), ranges[k..], d, |Text(Items(frags))|);
      var more;
      RemovedNext(ranges, k);
      r, more := TombstoneRange(r, ranges[k], d);
      ids := ids + more;
    }
    assert ranges[0..] == ranges;
  }

  lemma {:induction false} LaterInSequence(ranges: seq<Range>, n: nat, k: nat)
    requires InSequence(ranges, n) && k <= |ranges|
    ensures InSequence(ranges[k..], n)
  {
  }

  lemma {:induction false} NothingHidden(items: seq<Item>, d: Identity)
    ensures HideRanges(items, [], d) == items && ChosenIds(items, []) == {}
  {
  }

  method TombstoneRange(frags: seq<Fragment>, range: Range, d: Identity) returns (r: seq<Fragment>, ids: seq<Identity>)
    requires NonEmptyRuns(frags)
    ensures NonEmptyRuns(r) && Items(r) == HideRanges(Items(frags), [range], d)
    ensures forall id :: id in ids <==> id in ChosenIds(Items(frags), [range])
    ensures CleanFor(frags, d) ==> CleanFor(r, d)
    ensures |ids| <= Removed([range])
  {
    RemovedOne(range);
    if range.end <= range.start {
      EmptyRange(Items(frags), range, d);
      return frags, [];
    }
    r := SplitAtOffset(frags, range.start);
    r := SplitAtOffset(r, range.end);
    r, ids := HideBetween(r, range, d);
  }

  lemma {:induction false} EmptyRange(items: seq<Item>, range: Range, d: Identity)
    requires range.end <= range.start
    ensures HideRanges(items, [range], d) == items && ChosenIds(items, [range]) == {}
  {
  }

  // ---- Packing deleted identities ----------------------------------------

  ghost predicate Ascends(ids: seq<Identity>) {
    forall i, j :: 0 <= i < j < |ids| ==> !IdLess(ids[j], ids[i])
  }

  function IdentityKey(id: Identity): SortKey {
    SortKey(id.counter, id.actor)
  }

  method SortIds(ids: seq<Identity>) returns (sorted: seq<Identity>)
    ensures Ascends(sorted) && |sorted| == |ids| && forall id :: id in sorted <==> id in ids
    ensures NoneTwice(ids) ==> NoneTwice(sorted)
  {
    sorted := SortBy(ids, IdentityKey);
    if NoneTwice(ids) { RearrangedNoneTwice(ids, sorted); }
    forall i, j | 0 <= i < j < |sorted|
      ensures !IdLess(sorted[j], sorted[i])
    {
      assert !KeyBelow(IdentityKey(sorted[j]), IdentityKey(sorted[i]));
    }
  }

  ghost predicate Covered(runs: seq<DeletionRun>, id: Identity) {
    exists r :: r in runs && InDeletion(r, id)
  }

  /** `count` consecutive identities of one actor, from index `i` on. */
  ghost predicate IsStretch(sorted: seq<Identity>, i: nat, count: nat)
    requires i + count <= |sorted|
  {
    forall j :: i <= j < i + count ==> sorted[j] == Identity(sorted[i].actor, sorted[i].counter + (j - i))
  }

  /** Consecutive identities of one actor become one run. The runs name exactly
      the identities. */
  method Pack(ids: seq<Identity>) returns (runs: seq<DeletionRun>)
    ensures forall id :: Covered(runs, id) <==> id in ids
    ensures forall r :: r in runs ==> r.count > 0
    ensures |runs| <= |ids|
    ensures NoneTwice(ids) ==> |runs| == |Heads(Singles(set id | id in ids))|
  {
    var sorted := SortIds(ids);
    runs := [];
    var i := 0;
    NothingPacked(sorted);
    hide Covered, Breaks, AsPieces, IsStretch, InDeletion, Ascends;
    while i < |sorted|
      invariant i <= |sorted|
      invariant forall id :: Covered(runs, id) <==> id in sorted[..i]
      invariant forall r :: r in runs ==> r.count > 0
      invariant |runs| <= i && |runs| == Breaks(AsPieces(sorted[..i]))
      invariant 0 < i < |sorted| ==> sorted[i] != Identity(sorted[i - 1].actor, sorted[i - 1].counter + 1)
    {
      var count := StretchAt(sorted, i);
      PackStep(sorted, i, count, runs);
      StretchIsOne(sorted, i, count);
      runs := runs + [DeletionRun(sorted[i], count)];
      i := i + count;
    }
    assert sorted[..i] == sorted;
    if NoneTwice(ids) { PackedCount(sorted, ids); }
  }

  lemma {:induction false} NothingPacked(sorted: seq<Identity>)
    ensures (forall id :: !Covered([], id)) && Breaks(AsPieces(sorted[..0])) == 0
  {
  }

  /** The longest stretch from `i` on. */
  method StretchAt(sorted: seq<Identity>, i: nat) returns (count: nat)
    requires i < |sorted|
    ensures 0 < count && i + count <= |sorted| && IsStretch(sorted, i, count)
    ensures i + count < |sorted| ==> sorted[i + count] != Identity(sorted[i].actor, sorted[i].counter + count)
  {
    var first := sorted[i];
    count := 1;
    while i + count < |sorted| && sorted[i + count] == Identity(first.actor, first.counter + count)
      invariant 0 < count && i + count <= |sorted| && IsStretch(sorted, i, count)
    {
      count := count + 1;
    }
  }

  lemma {:induction false} PackedCount(sorted: seq<Identity>, ids: seq<Identity>)
    requires Ascends(sorted) && NoneTwice(sorted) && forall id :: id in sorted <==> id in ids
    ensures Breaks(AsPieces(sorted)) == |Heads(Singles(set id | id in ids))|
  {
    var s := AsPieces(sorted);
    forall i, j | 0 <= i < j < |s|
      ensures IdLess(s[i].first, s[j].first)
    {
      assert !IdLess(sorted[j], sorted[i]) && sorted[i] != sorted[j];
    }
    BreaksAreHeads(s);
    PiecesOfIds(sorted);
    assert (set id | id in sorted) == (set id | id in ids);
  }

  lemma {:induction false} StretchIsOne(sorted: seq<Identity>, i: nat, count: nat)
    requires i + count <= |sorted| && count > 0 && IsStretch(sorted, i, count)
    requires i > 0 ==> sorted[i] != Identity(sorted[i - 1].actor, sorted[i - 1].counter + 1)
    ensures Breaks(AsPieces(sorted[..i + count])) == Breaks(AsPieces(sorted[..i])) + 1
    ensures sorted[i + count - 1] == Identity(sorted[i].actor, sorted[i].counter + count - 1)
  {
    StretchBreaks(sorted, i, count);
    hide Breaks, AsPieces;
  }

  lemma {:induction false} PackStep(sorted: seq<Identity>, i: nat, count: nat, runs: seq<DeletionRun>)
    requires i + count <= |sorted| && count > 0 && IsStretch(sorted, i, count)
    requires forall id :: Covered(runs, id) <==> id in sorted[..i]
    ensures forall id :: Covered(runs + [DeletionRun(sorted[i], count)], id) <==> id in sorted[..i + count]
  {
    var run := DeletionRun(sorted[i], count);
    assert sorted[..i + count] == sorted[..i] + sorted[i..i + count];
    forall id
      ensures Covered(runs + [run], id) <==> Covered(runs, id) || InDeletion(run, id)
    {
      if InDeletion(run, id) { assert run in runs + [run]; }
      if Covered(runs, id) {
        var r :| r in runs && InDeletion(r, id);
        assert r in runs + [run];
      }
    }
    forall id
      ensures InDeletion(run, id) <==> id in sorted[i..i + count]
    {
      if InDeletion(run, id) {
        var k := id.counter - sorted[i].counter;
        assert sorted[i..i + count][k] == sorted[i + k] == id;
      }
    }
  }
}
