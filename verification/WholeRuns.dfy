/** Shortcuts for edits that cover whole runs, or only one. They publish fewer rows
    than the transaction over any covered runs, and reach the same runs. */
module WholeRuns {
  import opened Ids
  import opened FugueOrder
  import opened Fragments
  import opened Histories
  import opened SequenceOrder
  import opened Indexes
  import opened DeletionPacking
  import opened DeletionRuns
  import opened Representation
  import opened Visibility
  import opened RemoteEdits
  import opened VisibleText
  import opened LocalEdits
  import opened VisibleRuns
  import opened StagedRuns
  import opened RunPublication
  import opened RunRows
  import opened VisibleEdits

  // ---- Whole runs --------------------------------------------------------

  /** Every covered run is covered completely. */
  ghost predicate AllWhole(frags: seq<Fragment>, covered: seq<Target>) {
    forall t :: t in covered ==> IsWhole(frags, t)
  }

  ghost predicate IsWhole(frags: seq<Fragment>, t: Target) {
    t.frag < |frags| && t.off == 0 && t.count == Length(frags[t.frag])
  }

  /** Walk the visible runs of the range; refused exactly if one of them is not
      covered completely. */
  method CollectWhole(frags: seq<Fragment>, index: RunIndex, r: Range) returns (covered: Option<seq<Target>>)
    requires NonEmptyRuns(frags) && Coherent(frags, index)
    requires r.start < r.end <= |Text(Items(frags))|
    ensures covered.Some? ==> covered.value == CoveredBelow(frags, r, |frags|) && covered.value != [] && |covered.value| <= r.end - r.start
    ensures covered.Some? <==> AllWhole(frags, CoveredBelow(frags, r, |frags|))
  {
    hide *;
    RunStartEnd(frags);
    var i, position := SeekVisible(frags, r.start);
    var targets: seq<Target>, consumed: nat := [], r.start;
    WalkStarts(frags, r, i);
    while consumed < r.end
      invariant Walking(frags, r, i, position, targets, consumed)
      decreases |frags| - i
    {
      var ok, more, upTo, to := StepWhole(frags, index, r, i, position, targets, consumed);
      if !ok { return None; }
      targets, consumed, position, i := more, upTo, to, i + 1;
    }
    WalkEnds(frags, r, i, position, targets, consumed);
    return Some(targets);
  }

  /** How far the walk has come, over whole runs only. */
  ghost predicate Walking(frags: seq<Fragment>, r: Range, i: nat, position: nat, targets: seq<Target>, consumed: nat) {
    && Collecting(frags, r, i, targets, consumed) && i <= |frags| && position == RunStart(frags, i) && AllWhole(frags, targets)
    && (targets == [] ==> i < |frags| && IsCovered(frags, i, r))
  }

  lemma {:induction false} WalkStarts(frags: seq<Fragment>, r: Range, i: nat)
    requires i < |frags| && RunStart(frags, i) <= r.start < RunStart(frags, i) + ShownLength(frags[i]) && r.start < r.end
    ensures Walking(frags, r, i, RunStart(frags, i), [], r.start)
  {
    StartCollecting(frags, r, i);
    StartsInside(frags, i, r);
    hide *;
    WalkIsStarted(frags, r, i);
  }

  lemma {:induction false} WalkIsStarted(frags: seq<Fragment>, r: Range, i: nat)
    requires i < |frags| && Collecting(frags, r, i, [], r.start) && IsCovered(frags, i, r) && AllWhole(frags, [])
    ensures Walking(frags, r, i, RunStart(frags, i), [], r.start)
  {
    hide Collecting, AllWhole, RunStart, IsCovered;
  }

  lemma {:induction false} WalkEnds(frags: seq<Fragment>, r: Range, i: nat, position: nat, targets: seq<Target>, consumed: nat)
    requires Walking(frags, r, i, position, targets, consumed) && r.end <= consumed && r.start < r.end
    ensures targets == CoveredBelow(frags, r, |frags|) && targets != [] && |targets| <= r.end - r.start && AllWhole(frags, targets)
  {
    AllCollected(frags, r, i, targets, consumed);
    FewCollected(frags, r, i, targets, consumed);
    hide *;
  }

  /** Over one more run. */
  method StepWhole(frags: seq<Fragment>, index: RunIndex, r: Range, i: nat, position: nat, targets: seq<Target>, consumed: nat)
    returns (ok: bool, more: seq<Target>, upTo: nat, to: nat)
    requires NonEmptyRuns(frags) && Coherent(frags, index) && r.end <= RunStart(frags, |frags|)
    requires Walking(frags, r, i, position, targets, consumed) && consumed < r.end
    ensures i < |frags| && (ok ==> Walking(frags, r, i + 1, to, more, upTo))
    ensures !ok ==> !AllWhole(frags, CoveredBelow(frags, r, |frags|))
  {
    WalkParts(frags, r, i, position, targets, consumed);
    hide *;
    CollectRun(frags, r, i, targets, consumed);
    ok, more, upTo := CollectNext(frags, index, r, i, position, targets, consumed);
    to := position + ShownLength(frags[i]);
    ok := TakesWhole(frags, r, i, position, targets, consumed, more, upTo);
    if ok { WalkIs(frags, r, i + 1, to, more, upTo); }
  }

  lemma {:induction false} WalkParts(frags: seq<Fragment>, r: Range, i: nat, position: nat, targets: seq<Target>, consumed: nat)
    requires Walking(frags, r, i, position, targets, consumed)
    ensures Collecting(frags, r, i, targets, consumed) && i <= |frags| && position == RunStart(frags, i) && AllWhole(frags, targets)
    ensures targets == [] ==> i < |frags| && IsCovered(frags, i, r)
  {
  }

  lemma {:induction false} WalkIs(frags: seq<Fragment>, r: Range, i: nat, position: nat, targets: seq<Target>, consumed: nat)
    requires Collecting(frags, r, i, targets, consumed) && i <= |frags| && position == RunStart(frags, i) && AllWhole(frags, targets)
    requires targets != []
    ensures Walking(frags, r, i, position, targets, consumed)
  {
    hide Collecting, AllWhole, RunStart;
  }

  lemma {:induction false} FewCollected(frags: seq<Fragment>, r: Range, i: nat, targets: seq<Target>, consumed: nat)
    requires Collecting(frags, r, i, targets, consumed)
    ensures |targets| <= r.end - r.start
  {
  }

  /** The run that shows the scalar at an offset. */
  lemma {:induction false} ShownAt(frags: seq<Fragment>, o: nat, n: nat) returns (i: nat)
    requires n <= |frags| && o < RunStart(frags, n)
    ensures i < n && RunStart(frags, i) <= o < RunStart(frags, i) + ShownLength(frags[i])
  {
    RunStartZero(frags);
    RunStartStep(frags, n - 1);
    if RunStart(frags, n - 1) <= o {
      i := n - 1;
    } else {
      i := ShownAt(frags, o, n - 1);
    }
  }

  lemma {:induction false} RunStartZero(frags: seq<Fragment>)
    ensures RunStart(frags, 0) == 0
  {
  }

  /** A range that is not empty covers a run. */
  lemma {:induction false} CoversSomething(frags: seq<Fragment>, r: Range)
    requires r.start < r.end <= |Text(Items(frags))|
    ensures CoveredBelow(frags, r, |frags|) != []
  {
    RunStartEnd(frags);
    var i := ShownAt(frags, r.start, |frags|);
    StartsInside(frags, i, r);
    CoveredIn(frags, r, |frags|, i);
  }

  lemma {:induction false} StartsInside(frags: seq<Fragment>, i: nat, r: Range)
    requires i < |frags| && RunStart(frags, i) <= r.start < RunStart(frags, i) + ShownLength(frags[i]) && r.start < r.end
    ensures IsCovered(frags, i, r) && AllWhole(frags, [])
  {
  }

  /** The run the walk stands in is hidden, or starts where the walk has come to and
      ends within the range. */
  method TakesWhole(frags: seq<Fragment>, r: Range, i: nat, position: nat, ghost targets: seq<Target>, consumed: nat,
                    ghost more: seq<Target>, ghost upTo: nat) returns (whole: bool)
    requires i < |frags| && position == RunStart(frags, i) <= consumed < r.end && AllWhole(frags, targets)
    requires Collecting(frags, r, i, targets, consumed) && Collecting(frags, r, i + 1, more, upTo)
    requires RunStart(frags, i + 1) == RunStart(frags, i) + ShownLength(frags[i])
    requires targets == [] ==> IsCovered(frags, i, r)
    ensures whole ==> AllWhole(frags, more) && more != []
    ensures !whole ==> !AllWhole(frags, CoveredBelow(frags, r, |frags|))
  {
    whole := !Shows(frags[i]) || (position == consumed && |frags[i].text| <= r.end - consumed);
    MoreIs(frags, r, i, targets, consumed, more, upTo);
    if whole {
      StillWhole(frags, r, i, targets, consumed, more);
    } else {
      NotWhole(frags, r, i, targets, consumed);
    }
  }

  lemma {:induction false} MoreIs(frags: seq<Fragment>, r: Range, i: nat, targets: seq<Target>, consumed: nat, more: seq<Target>, upTo: nat)
    requires i < |frags| && Collecting(frags, r, i, targets, consumed) && Collecting(frags, r, i + 1, more, upTo)
    ensures more == targets + if IsCovered(frags, i, r) then [CoveredPart(frags, i, r)] else []
  {
    hide RunStart, IsCovered;
  }

  lemma {:induction false} StillWhole(frags: seq<Fragment>, r: Range, i: nat, targets: seq<Target>, consumed: nat, more: seq<Target>)
    requires i < |frags| && RunStart(frags, i) <= consumed < r.end && AllWhole(frags, targets)
    requires Collecting(frags, r, i, targets, consumed) && (targets == [] ==> IsCovered(frags, i, r))
    requires more == targets + if IsCovered(frags, i, r) then [CoveredPart(frags, i, r)] else []
    requires Shows(frags[i]) ==> RunStart(frags, i) == consumed && |frags[i].text| <= r.end - consumed
    ensures AllWhole(frags, more) && more != []
  {
    hide CoveredBelow;
    if IsCovered(frags, i, r) { assert IsWhole(frags, CoveredPart(frags, i, r)); }
  }

  lemma {:induction false} NotWhole(frags: seq<Fragment>, r: Range, i: nat, targets: seq<Target>, consumed: nat)
    requires i < |frags| && RunStart(frags, i) <= consumed < r.end && Collecting(frags, r, i, targets, consumed)
    requires targets == [] ==> IsCovered(frags, i, r)
    requires Shows(frags[i]) && (RunStart(frags, i) < consumed || |frags[i].text| > r.end - consumed)
    ensures !AllWhole(frags, CoveredBelow(frags, r, |frags|))
  {
    PartIsCut(frags, r, i, targets, consumed);
    hide *;
    CoveredIn(frags, r, |frags|, i);
    CutIsNotWhole(frags, CoveredPart(frags, i, r), CoveredBelow(frags, r, |frags|));
  }

  lemma {:induction false} CutIsNotWhole(frags: seq<Fragment>, t: Target, covered: seq<Target>)
    requires t in covered && !IsWhole(frags, t)
    ensures !AllWhole(frags, covered)
  {
  }

  lemma {:induction false} PartIsCut(frags: seq<Fragment>, r: Range, i: nat, targets: seq<Target>, consumed: nat)
    requires i < |frags| && RunStart(frags, i) <= consumed < r.end && Collecting(frags, r, i, targets, consumed)
    requires targets == [] ==> IsCovered(frags, i, r)
    requires Shows(frags[i]) && (RunStart(frags, i) < consumed || |frags[i].text| > r.end - consumed)
    ensures IsCovered(frags, i, r) && !IsWhole(frags, CoveredPart(frags, i, r))
  {
    hide CoveredBelow;
  }

  // ---- Tombstoning whole runs --------------------------------------------

  /** The runs with the covered ones below rank `m` tombstoned. */
  ghost function HiddenBelow(frags: seq<Fragment>, r: Range, d: Identity, m: nat): (s: seq<Fragment>)
    ensures |s| == |frags|
  {
    seq(|frags|, i requires 0 <= i < |frags| => if i < m && IsCovered(frags, i, r) then HideRun(frags[i], d) else frags[i])
  }

  lemma {:induction false} NoneToHide(frags: seq<Fragment>, r: Range, d: Identity, a: nat, b: nat)
    requires a <= b <= |frags| && NoneCovered(frags, r, a, b)
    ensures HiddenBelow(frags, r, d, a) == HiddenBelow(frags, r, d, b)
  {
    hide IsCovered;
  }

  /** Where the walk over the covered runs is before the `k`-th. */
  ghost function RankBefore(frags: seq<Fragment>, r: Range, k: nat): nat
    requires k <= |CoveredBelow(frags, r, |frags|)|
  {
    if k < |CoveredBelow(frags, r, |frags|)| then CoveredBelow(frags, r, |frags|)[k].frag else |frags|
  }

  lemma {:induction false} HideFirst(frags: seq<Fragment>, r: Range, d: Identity)
    requires CoveredBelow(frags, r, |frags|) != []
    ensures HiddenBelow(frags, r, d, RankBefore(frags, r, 0)) == frags
  {
    LastGap(frags, r, d);
    hide IsCovered, CoveredBelow;
    NoneToHide(frags, r, d, 0, RankBefore(frags, r, 0));
    assert HiddenBelow(frags, r, d, 0) == frags;
  }

  lemma {:induction false} HideNext(frags: seq<Fragment>, r: Range, d: Identity, k: nat)
    requires k < |CoveredBelow(frags, r, |frags|)|
    ensures var at := RankBefore(frags, r, k);
            && at < |frags| && IsCovered(frags, at, r) && HiddenBelow(frags, r, d, at)[at] == frags[at]
            && HiddenBelow(frags, r, d, RankBefore(frags, r, k + 1)) == HiddenBelow(frags, r, d, at)[at := HideRun(frags[at], d)]
  {
    var c := CoveredBelow(frags, r, |frags|);
    TargetAt(frags, r, d, k);
    if k + 1 < |c| { TargetGap(frags, r, d, k); } else { LastGap(frags, r, d); }
    var at := RankBefore(frags, r, k);
    hide IsCovered, CoveredBelow;
    NoneToHide(frags, r, d, at + 1, RankBefore(frags, r, k + 1));
  }

  lemma {:induction false} WholePieces(f: Fragment, d: Identity)
    requires !f.marker && f.text != []
    ensures Pieces(f, 0, |f.text|, d) == [HideRun(f, d)]
  {
    assert f.text[0..][..|f.text|] == f.text;
  }

  /** With whole runs covered, staging is tombstoning them. */
  lemma {:induction false} StagedWhole(frags: seq<Fragment>, r: Range, d: Identity, n: nat)
    requires n <= |frags| && AllWhole(frags, CoveredBelow(frags, r, |frags|))
    ensures Staged(frags, r, d, 0, n) == HiddenBelow(frags, r, d, |frags|)[..n]
  {
    if n > 0 {
      StagedWhole(frags, r, d, n - 1);
      WholeStagedRun(frags, r, d, n - 1);
      hide StagedRun, IsCovered, AllWhole, CoveredBelow;
      HiddenGrows(frags, r, d, n - 1);
    }
  }

  lemma {:induction false} HiddenGrows(frags: seq<Fragment>, r: Range, d: Identity, i: nat)
    requires i < |frags|
    ensures HiddenBelow(frags, r, d, |frags|)[..i + 1]
            == HiddenBelow(frags, r, d, |frags|)[..i] + [if IsCovered(frags, i, r) then HideRun(frags[i], d) else frags[i]]
  {
    hide IsCovered;
  }

  lemma {:induction false} WholeStagedRun(frags: seq<Fragment>, r: Range, d: Identity, i: nat)
    requires i < |frags| && AllWhole(frags, CoveredBelow(frags, r, |frags|))
    ensures StagedRun(frags, r, d, i) == [if IsCovered(frags, i, r) then HideRun(frags[i], d) else frags[i]]
  {
    if IsCovered(frags, i, r) {
      CoveredIn(frags, r, |frags|, i);
      assert IsWhole(frags, CoveredPart(frags, i, r));
      CoveredBounds(frags, i, r);
      hide IsCovered, CoveredBelow, RunStart;
      WholePieces(frags[i], d);
    }
  }

  // ---- Deleting whole runs -----------------------------------------------

  /** The counters of two runs, in order, do not overlap. */
  ghost predicate CountersApart(s: seq<DeletionRun>) {
    forall k :: 0 < k < |s| ==> s[k - 1].first.counter + s[k - 1].count <= s[k].first.counter
  }

  /** Whether the segments, in order, keep their counters apart. */
  method CheckApart(segments: seq<DeletionRun>) returns (ok: bool, ghost sorted: seq<DeletionRun>)
    ensures multiset(sorted) == multiset(segments) && SegmentsAscend(sorted) && (ok <==> CountersApart(sorted))
  {
    var inOrder := SortSegments(segments);
    sorted := inOrder;
    for k := 0 to |inOrder|
      invariant forall j :: 0 < j < k ==> inOrder[j - 1].first.counter + inOrder[j - 1].count <= inOrder[j].first.counter
    {
      if k > 0 && inOrder[k].first.counter < inOrder[k - 1].first.counter + inOrder[k - 1].count { return false, sorted; }
    }
    ok := true;
  }

  /** Tombstone whole runs in place: each gets one more row and keeps its others. */
  method PublishWhole(frags: seq<Fragment>, index: RunIndex, undo: seq<UndoEntry>, r: Range, covered: seq<Target>, d: Identity)
    returns (done: bool, all: seq<Fragment>, index': RunIndex, runs: seq<DeletionRun>)
    requires index.valid && NonEmptyRuns(frags) && Coherent(frags, index) && !Undone(undo, d)
    requires covered == CoveredBelow(frags, r, |frags|) && covered != [] && AllWhole(frags, covered)
    ensures done ==> all == Staged(frags, r, d, 0, |frags|) && NonEmptyRuns(all) && index'.valid && Coherent(all, index')
    ensures done ==> index'.nextRun == index.nextRun && |runs| == StagedRunCount(frags, r)
    ensures done ==> (forall id :: Covered(runs, id) <==> id in ChosenIds(Items(frags), [r]))
    ensures done ==> (forall x :: x in runs ==> x.count > 0) && |runs| <= |covered|
  {
    hide *;
    done, all, index', runs := false, frags, index, [];
    AllCoveredInBounds(frags, r);
    var segments := CollectSegments(frags, covered);
    var apart, _ := CheckApart(segments);
    if !apart { return; }
    var packed, runs1 := PackSegments(segments);
    if !packed { return; }
    SegmentsDiffer(frags, index, r);
    CountIs(frags, r);
    var labelled, all1, index1 := HideRuns(frags, index, undo, r, covered, d);
    if !labelled { return; }
    StagedItems(frags, r, d, |frags|);
    StagedWhole(frags, r, d, |frags|);
    AllHidden(frags, r, d);
    forall id
      ensures Covered(segments, id) <==> id in ChosenIds(Items(frags), [r])
    {
      SegmentsAreChosen(frags, r, id);
    }
    done, all, index', runs := true, all1, index1, runs1;
  }

  lemma {:induction false} AllHidden(frags: seq<Fragment>, r: Range, d: Identity)
    ensures HiddenBelow(frags, r, d, |frags|)[..|frags|] == HiddenBelow(frags, r, d, |frags|)
  {
  }

  /** Label and tombstone one covered run after the other. */
  method HideRuns(frags: seq<Fragment>, index: RunIndex, undo: seq<UndoEntry>, ghost r: Range, covered: seq<Target>, d: Identity)
    returns (ok: bool, all: seq<Fragment>, index': RunIndex)
    requires index.valid && Coherent(frags, index) && !Undone(undo, d)
    requires covered == CoveredBelow(frags, r, |frags|) && covered != []
    ensures ok ==> all == HiddenBelow(frags, r, d, |frags|) && index'.valid && Coherent(all, index') && index'.nextRun == index.nextRun
  {
    hide *;
    ok, all, index' := true, frags, index;
    HideFirst(frags, r, d);
    for k := 0 to |covered|
      invariant ok && index'.valid && Coherent(all, index') && index'.nextRun == index.nextRun
      invariant all == HiddenBelow(frags, r, d, RankBefore(frags, r, k))
    {
      HideNext(frags, r, d, k);
      RankIs(frags, r, k);
      ok, all, index' := HideOne(all, index', undo, covered[k].frag, d);
      if !ok { return; }
    }
    RankIs(frags, r, |covered|);
  }

  lemma {:induction false} RankIs(frags: seq<Fragment>, r: Range, k: nat)
    requires k <= |CoveredBelow(frags, r, |frags|)|
    ensures RankBefore(frags, r, k) == if k < |CoveredBelow(frags, r, |frags|)| then CoveredBelow(frags, r, |frags|)[k].frag else |frags|
  {
  }

  /** One more deletion on a whole run hides it. */
  method HideOne(frags: seq<Fragment>, index: RunIndex, undo: seq<UndoEntry>, rank: nat, d: Identity)
    returns (ok: bool, all: seq<Fragment>, index': RunIndex)
    requires index.valid && Coherent(frags, index) && rank < |frags| && !Undone(undo, d)
    ensures ok ==> all == frags[rank := HideRun(frags[rank], d)] && index'.valid && Coherent(all, index') && index'.nextRun == index.nextRun
  {
    all := frags;
    hide Coherent;
    ok, index' := LabelRun(frags, index, rank, d);
    if !ok { return; }
    var g := AddDeletion(frags[rank], d);
    var visible := ComputeVisible(g, undo);
    if visible { return false, frags, index; }
    all := frags[rank := g.(visible := visible)];
    SameRowsCoherent(frags[rank := g], all, index');
  }

  /** Delete a range that covers whole runs only. */
  method DeleteWhole(frags: seq<Fragment>, index: RunIndex, undo: seq<UndoEntry>, r: Range, d: Identity)
    returns (done: bool, all: seq<Fragment>, index': RunIndex, runs: seq<DeletionRun>)
    requires index.valid && NonEmptyRuns(frags) && Coherent(frags, index) && !Undone(undo, d)
    requires r.start < r.end <= |Text(Items(frags))|
    ensures done ==> all == RunsAfter(frags, r, d, None, None) && NonEmptyRuns(all) && index'.valid && Coherent(all, index')
    ensures done ==> Spends(index, |all| + 1, index') && |runs| == StagedRunCount(frags, r)
    ensures done ==> (forall id :: Covered(runs, id) <==> id in ChosenIds(Items(frags), [r]))
    ensures done ==> (forall x :: x in runs ==> x.count > 0) && |runs| <= r.end - r.start
  {
    hide *;
    done, all, index', runs := false, frags, index, [];
    var covered := CollectWhole(frags, index, r);
    if covered.None? { return; }
    done, all, index', runs := PublishWhole(frags, index, undo, r, covered.value, d);
    NothingPut(frags, r, d);
    if done { SpendsNone(index, index', |all| + 1); }
  }

  lemma {:induction false} NothingPut(frags: seq<Fragment>, r: Range, d: Identity)
    ensures RunsAfter(frags, r, d, None, None) == Staged(frags, r, d, 0, |frags|)
  {
  }

  lemma {:induction false} SpendsNone(index: RunIndex, index': RunIndex, n: nat)
    requires index'.nextRun == index.nextRun
    ensures Spends(index, n, index')
  {
  }

  // ---- One new run at a rank ---------------------------------------------

  lemma {:induction false} InsertedKeeps(frags: seq<Fragment>, rank: nat, f: Fragment, next: RunId)
    requires rank <= |frags| && next < U64 && next + 1 <= U64
    ensures AllInBounds(frags, [])
    ensures Keeps(frags, StartsOf(frags, []), Entries([f], next), frags[..rank] + [f] + frags[rank..])
  {
    var all := frags[..rank] + [f] + frags[rank..];
    forall x
      ensures x in all <==> x in frags || Entered(Entries([f], next), x)
    {
      EnteredIsAdded([f], next, x);
      PutHas(frags, rank, Some(f), x);
    }
  }

  lemma {:induction false} InsertedNonEmpty(frags: seq<Fragment>, rank: nat, f: Fragment)
    requires NonEmptyRuns(frags) && rank <= |frags| && Length(f) > 0
    ensures NonEmptyRuns(frags[..rank] + [f] + frags[rank..])
  {
    hide Length;
  }

  /** Publish one new run at a rank: its rows come, and the ranks after it move. */
  method InsertAtRank(frags: seq<Fragment>, index: RunIndex, f: Fragment, rank: nat) returns (ok: bool, all: seq<Fragment>, index': RunIndex)
    requires NonEmptyRuns(frags) && (index.valid ==> Coherent(frags, index)) && rank <= |frags| && Length(f) > 0
    requires Distinct(DocOf(frags[..rank] + [f] + frags[rank..]))
    ensures ok ==> all == frags[..rank] + [f] + frags[rank..] && NonEmptyRuns(all) && index'.valid && Coherent(all, index')
    ensures ok ==> Spends(index, |all| + 1, index')
  {
    all, index' := frags, index;
    if !index.valid || index.nextRun == 0 || !Usable(f.origin) { return false, frags, index; }
    all := frags[..rank] + [f] + frags[rank..];
    hide *;
    InsertedNonEmpty(frags, rank, f);
    InsertedKeeps(frags, rank, f, index.nextRun);
    ok, index' := ExchangeRows(frags, index, [], [f], 0, all);
    if ok { SpendsLess(index, 1, index'); }
  }

  // ---- Replacing a whole run ---------------------------------------------

  /** One whole run gives way to a new one: a row for its deletion, and the new run's
      rows at its rank. */
  method ReplaceWhole(frags: seq<Fragment>, index: RunIndex, undo: seq<UndoEntry>, r: Range, covered: seq<Target>, d: Identity,
                      insert: nat, f: Fragment)
    returns (done: bool, all: seq<Fragment>, index': RunIndex, runs: seq<DeletionRun>)
    requires index.valid && NonEmptyRuns(frags) && Coherent(frags, index) && !Undone(undo, d)
    requires covered == CoveredBelow(frags, r, |frags|) && |covered| == 1 && AllWhole(frags, covered)
    requires insert <= |frags| && Length(f) > 0 && insert <= |Staged(frags, r, d, 0, |frags|)|
    requires Distinct(DocOf(RunsAfter(frags, r, d, Some(insert), Some(f))))
    ensures done ==> all == RunsAfter(frags, r, d, Some(insert), Some(f)) && NonEmptyRuns(all) && index'.valid && Coherent(all, index')
    ensures done ==> Spends(index, |all| + 1, index') && |runs| == StagedRunCount(frags, r)
    ensures done ==> (forall id :: Covered(runs, id) <==> id in ChosenIds(Items(frags), [r]))
    ensures done ==> (forall x :: x in runs ==> x.count > 0) && |runs| <= |covered|
  {
    hide *;
    done, all, index', runs := false, frags, index, [];
    var hidden, staged, index1, runs1 := PublishWhole(frags, index, undo, r, covered, d);
    if !hidden { return; }
    AfterIsPut(frags, r, d, Some(insert), Some(f));
    PutIs(staged, insert, f);
    var placed, all1, index2 := InsertAtRank(staged, index1, f, insert);
    if !placed { return; }
    SpendsFrom(index, index1, |all1| + 1, index2);
    done, all, index', runs := true, all1, index2, runs1;
  }

  lemma {:induction false} PutIs(staged: seq<Fragment>, insert: nat, f: Fragment)
    requires insert <= |staged|
    ensures PutRun(staged, Some(insert), Some(f)) == staged[..insert] + [f] + staged[insert..]
  {
  }

  lemma {:induction false} SpendsFrom(a: RunIndex, b: RunIndex, n: nat, c: RunIndex)
    requires b.nextRun == a.nextRun && Spends(b, n, c)
    ensures Spends(a, n, c)
  {
  }

  // ---- Replacing part of one run -----------------------------------------

  /** The pieces of one run and the new run between them, without a check of the
      order. */
  method ReplacePart(frags: seq<Fragment>, index: RunIndex, undo: seq<UndoEntry>, r: Range, covered: seq<Target>, d: Identity,
                     insert: nat, f: Fragment)
    returns (done: bool, all: seq<Fragment>, index': RunIndex, runs: seq<DeletionRun>)
    requires index.valid && NonEmptyRuns(frags) && Coherent(frags, index) && !Undone(undo, d)
    requires covered == CoveredBelow(frags, r, |frags|) && |covered| == 1
    requires Length(f) > 0 && insert <= |Staged(frags, r, d, 0, |frags|)|
    requires Distinct(DocOf(RunsAfter(frags, r, d, Some(insert), Some(f))))
    ensures done ==> all == RunsAfter(frags, r, d, Some(insert), Some(f)) && NonEmptyRuns(all) && index'.valid && Coherent(all, index')
    ensures done ==> Spends(index, |all| + 1, index') && |runs| == StagedRunCount(frags, r)
    ensures done ==> (forall id :: Covered(runs, id) <==> id in ChosenIds(Items(frags), [r]))
    ensures done ==> (forall x :: x in runs ==> x.count > 0) && |runs| <= |covered|
  {
    hide *;
    done, all, index', runs := false, frags, index, [];
    if index.nextRun == 0 { return; }
    var planned, pieces := PlanPieces(frags, undo, r, covered, d);
    if !planned { return; }
    var added := FlattenPieces(pieces);
    if index.nextRun + |added| >= U64 { return; }
    var staged, tree := StagePieces(frags, r, covered, pieces, d);
    if !staged { return; }
    AllCoveredInBounds(frags, r);
    var with := PutStaged(tree, Some(insert), Some(f));
    AfterIsPut(frags, r, d, Some(insert), Some(f));
    AfterIsKept(frags, index, r, d, Some(insert), Some(f), pieces);
    var exchanged, index1 := ExchangeRows(frags, index, covered, added + [f], |added|, with);
    if !exchanged { return; }
    FewPieces(frags, r, d, Some(insert), Some(f));
    SpendsLess(index, |added| + 1, index1);
    var t := covered[0];
    InBoundsAt(frags, covered);
    var run := DeletionRun(ItemAt(frags[t.frag], t.off), t.count);
    OneSegment(frags, r, run);
    done, all, index', runs := true, with, index1, [run];
  }

  lemma {:induction false} InBoundsAt(frags: seq<Fragment>, covered: seq<Target>)
    requires AllInBounds(frags, covered) && |covered| == 1
    ensures covered[0].frag < |frags| && covered[0].off < Length(frags[covered[0].frag])
  {
    assert covered[0] in covered;
  }

  lemma {:induction false} OneSegment(frags: seq<Fragment>, r: Range, run: DeletionRun)
    requires |CoveredBelow(frags, r, |frags|)| == 1 && NonEmptyRuns(frags)
    requires var t := CoveredBelow(frags, r, |frags|)[0];
             t.frag < |frags| && t.off < Length(frags[t.frag]) && run == DeletionRun(ItemAt(frags[t.frag], t.off), t.count)
    ensures run.count > 0 && StagedRunCount(frags, r) == 1
    ensures forall id :: Covered([run], id) <==> id in ChosenIds(Items(frags), [r])
  {
    var covered := CoveredBelow(frags, r, |frags|);
    AllCoveredInBounds(frags, r);
    CountIs(frags, r);
    assert covered[0] in covered;
    hide CoveredBelow, ChosenIds, Items, Heads;
    var segments := Segments(frags, covered);
    assert segments == [run];
    forall id
      ensures Covered([run], id) <==> id in ChosenIds(Items(frags), [r])
    {
      SegmentsAreChosen(frags, r, id);
    }
    OneHead(run);
  }

  lemma {:induction false} OneHead(run: DeletionRun)
    requires run.count > 0
    ensures |Heads(PiecesOf([run]))| == 1
  {
    BreaksAreHeads([run]);
    assert [run][..0] == [];
  }

  /** Replace a range inside one run: the whole run, or a part of it. */
  method ReplaceInRun(frags: seq<Fragment>, index: RunIndex, undo: seq<UndoEntry>, r: Range, covered: seq<Target>, d: Identity,
                      insert: nat, f: Fragment)
    returns (done: bool, all: seq<Fragment>, index': RunIndex, runs: seq<DeletionRun>)
    requires index.valid && NonEmptyRuns(frags) && Coherent(frags, index) && !Undone(undo, d)
    requires r.start < r.end <= |Text(Items(frags))|
    requires covered == CoveredBelow(frags, r, |frags|) && covered != []
    requires Length(f) > 0 && insert <= |Staged(frags, r, d, 0, |frags|)| && InsertsAt(frags, r, insert)
    requires Distinct(DocOf(RunsAfter(frags, r, d, Some(insert), Some(f))))
    ensures done ==> all == RunsAfter(frags, r, d, Some(insert), Some(f)) && NonEmptyRuns(all) && index'.valid && Coherent(all, index')
    ensures done ==> Spends(index, |all| + 1, index') && |runs| == StagedRunCount(frags, r)
    ensures done ==> (forall id :: Covered(runs, id) <==> id in ChosenIds(Items(frags), [r]))
    ensures done ==> (forall x :: x in runs ==> x.count > 0) && |runs| <= |covered|
  {
    hide *;
    done, all, index', runs := false, frags, index, [];
    if |covered| != 1 { return; }
    var whole := CollectWhole(frags, index, r);
    if whole.Some? {
      WholeInserts(frags, r, insert);
      done, all, index', runs := ReplaceWhole(frags, index, undo, r, covered, d, insert, f);
      if done { return; }
    }
    done, all, index', runs := ReplacePart(frags, index, undo, r, covered, d, insert, f);
  }

  lemma {:induction false} WholeInserts(frags: seq<Fragment>, r: Range, insert: nat)
    requires InsertsAt(frags, r, insert) && AllWhole(frags, CoveredBelow(frags, r, |frags|))
    ensures insert <= |frags|
  {
    assert CoveredBelow(frags, r, |frags|)[0] in CoveredBelow(frags, r, |frags|);
    assert IsWhole(frags, CoveredBelow(frags, r, |frags|)[0]);
  }
}
