/** Editing a visible range in place: only the runs the range covers are split
    and tombstoned, and the new run is inserted between them, without flattening
    the document. The result is the one the general path computes. */
module VisibleRuns {
  import opened Ids
  import opened Fragments
  import opened Indexes
  import opened DeletionRuns
  import opened VisibleText
  import opened LocalEdits

  // ---- The covered runs --------------------------------------------------

  /** First and last covered scalar of run `i`, the last exclusive. */
  function CoverFirst(frags: seq<Fragment>, i: nat, r: Range): nat
    requires i < |frags|
  {
    if r.start > RunStart(frags, i) then r.start - RunStart(frags, i) else 0
  }

  function CoverLast(frags: seq<Fragment>, i: nat, r: Range): nat
    requires i < |frags|
  {
    if r.end < RunStart(frags, i) then 0
    else if r.end - RunStart(frags, i) < Length(frags[i]) then r.end - RunStart(frags, i)
    else Length(frags[i])
  }

  predicate IsCovered(frags: seq<Fragment>, i: nat, r: Range)
    requires i < |frags|
  {
    Shows(frags[i]) && CoverFirst(frags, i, r) < CoverLast(frags, i, r)
  }

  function CoveredPart(frags: seq<Fragment>, i: nat, r: Range): Target
    requires i < |frags| && IsCovered(frags, i, r)
  {
    Target(i, CoverFirst(frags, i, r), CoverLast(frags, i, r) - CoverFirst(frags, i, r))
  }

  /** The covered parts of the runs below rank `n`, in order. */
  function CoveredBelow(frags: seq<Fragment>, r: Range, n: nat): (targets: seq<Target>)
    requires n <= |frags|
    ensures forall t :: t in targets ==> t.frag < n && InBounds(frags, t)
  {
    if n == 0 then []
    else CoveredBelow(frags, r, n - 1) + if IsCovered(frags, n - 1, r) then [CoveredPart(frags, n - 1, r)] else []
  }

  lemma {:induction false} NothingBelow(frags: seq<Fragment>, r: Range, n: nat)
    requires n <= |frags| && RunStart(frags, n) <= r.start
    ensures CoveredBelow(frags, r, n) == []
  {
    if n > 0 {
      RunStartStep(frags, n - 1);
      NothingBelow(frags, r, n - 1);
    }
  }

  lemma {:induction false} NothingBeyond(frags: seq<Fragment>, r: Range, n: nat, m: nat)
    requires n <= m <= |frags| && r.end <= RunStart(frags, n)
    ensures CoveredBelow(frags, r, m) == CoveredBelow(frags, r, n)
    decreases m
  {
    if n < m {
      NothingBeyond(frags, r, n, m - 1);
      if n < m - 1 { RunStartMonotone(frags, n, m - 1); }
    }
  }

  /** The run that shows the scalar at visible offset `o`: the first one that ends
      beyond it. */
  method SeekVisible(frags: seq<Fragment>, o: nat) returns (i: nat, position: nat)
    requires o < |Text(Items(frags))|
    ensures i < |frags| && position == RunStart(frags, i) <= o < position + ShownLength(frags[i])
  {
    RunStartEnd(frags);
    i, position := 0, 0;
    hide RunStart;
    while position + ShownLength(frags[i]) <= o
      invariant i < |frags| && position == RunStart(frags, i) <= o
      decreases |frags| - i
    {
      RunStartStep(frags, i);
      position := position + ShownLength(frags[i]);
      i := i + 1;
    }
  }

  /** How far the walk has come: everything below rank `i` is collected. */
  ghost predicate Collecting(frags: seq<Fragment>, r: Range, i: nat, covered: seq<Target>, consumed: nat) {
    && i <= |frags| && covered == CoveredBelow(frags, r, i) && r.start <= consumed <= r.end && |covered| <= consumed - r.start
    && (if covered == [] then
          consumed == r.start && RunStart(frags, i) <= consumed
          && (i < |frags| ==> consumed <= RunStart(frags, i) + ShownLength(frags[i]))
        else consumed == if RunStart(frags, i) < r.end then RunStart(frags, i) else r.end)
  }

  /** While the range is not used up there is a run to look at, and the walk
      stands in it. */
  lemma {:induction false} CollectRun(frags: seq<Fragment>, r: Range, i: nat, covered: seq<Target>, consumed: nat)
    requires Collecting(frags, r, i, covered, consumed) && consumed < r.end <= RunStart(frags, |frags|)
    ensures i < |frags| && RunStart(frags, i) <= consumed && RunStart(frags, i + 1) == RunStart(frags, i) + ShownLength(frags[i])
  {
    RunStartStep(frags, i);
    hide RunStart;
  }

  /** First and last scalar of run `i` still to be collected. */
  function TakeFirst(frags: seq<Fragment>, i: nat, consumed: nat): int
    requires i <= |frags|
  {
    consumed - RunStart(frags, i)
  }

  function TakeLast(frags: seq<Fragment>, i: nat, r: Range): int
    requires i < |frags|
  {
    if r.end - RunStart(frags, i) < ShownLength(frags[i]) then r.end - RunStart(frags, i) else ShownLength(frags[i])
  }

  lemma {:induction false} TakenIsCovered(frags: seq<Fragment>, r: Range, i: nat, covered: seq<Target>, consumed: nat)
    requires Collecting(frags, r, i, covered, consumed) && consumed < r.end && i < |frags| && RunStart(frags, i) <= consumed
    ensures IsCovered(frags, i, r) <==> TakeFirst(frags, i, consumed) < TakeLast(frags, i, r)
    ensures IsCovered(frags, i, r) ==> CoverFirst(frags, i, r) == TakeFirst(frags, i, consumed) && CoverLast(frags, i, r) == TakeLast(frags, i, r)
  {
    hide RunStart, CoveredBelow;
  }

  lemma {:induction false} CollectTaken(frags: seq<Fragment>, r: Range, i: nat, covered: seq<Target>, consumed: nat)
    requires Collecting(frags, r, i, covered, consumed) && consumed < r.end && i < |frags| && RunStart(frags, i) <= consumed
    requires RunStart(frags, i + 1) == RunStart(frags, i) + ShownLength(frags[i])
    requires TakeFirst(frags, i, consumed) < TakeLast(frags, i, r)
    ensures var first, last := TakeFirst(frags, i, consumed), TakeLast(frags, i, r);
            Collecting(frags, r, i + 1, covered + [Target(i, first, last - first)], consumed + (last - first))
  {
    TakenIsCovered(frags, r, i, covered, consumed);
    assert CoveredBelow(frags, r, i + 1) == covered + [CoveredPart(frags, i, r)];
    hide RunStart, CoveredBelow, IsCovered, CoverFirst, CoverLast;
  }

  lemma {:induction false} CollectSkipped(frags: seq<Fragment>, r: Range, i: nat, covered: seq<Target>, consumed: nat)
    requires Collecting(frags, r, i, covered, consumed) && consumed < r.end && i < |frags| && RunStart(frags, i) <= consumed
    requires RunStart(frags, i + 1) == RunStart(frags, i) + ShownLength(frags[i])
    requires TakeLast(frags, i, r) <= TakeFirst(frags, i, consumed)
    ensures Shows(frags[i]) ==> RunStart(frags, i) + |frags[i].text| == consumed
    ensures Collecting(frags, r, i + 1, covered, consumed)
  {
    TakenIsCovered(frags, r, i, covered, consumed);
    assert CoveredBelow(frags, r, i + 1) == covered;
    hide RunStart, CoveredBelow, IsCovered, CoverFirst, CoverLast;
  }

  lemma {:induction false} StartCollecting(frags: seq<Fragment>, r: Range, i: nat)
    requires i < |frags| && RunStart(frags, i) <= r.start <= RunStart(frags, i) + ShownLength(frags[i]) && r.start < r.end
    ensures Collecting(frags, r, i, [], r.start)
  {
    NothingBelow(frags, r, i);
  }

  lemma {:induction false} AllCollected(frags: seq<Fragment>, r: Range, i: nat, covered: seq<Target>, consumed: nat)
    requires Collecting(frags, r, i, covered, consumed) && r.end <= consumed && r.start < r.end
    ensures covered == CoveredBelow(frags, r, |frags|) && covered != []
  {
    hide RunStart, CoveredBelow;
    NothingBeyond(frags, r, i, |frags|);
  }

  /** Walk the visible runs from `start` on. No range of the text is refused. */
  method CollectCovered(frags: seq<Fragment>, index: RunIndex, r: Range) returns (targets: Option<seq<Target>>)
    requires NonEmptyRuns(frags) && Coherent(frags, index)
    requires r.start < r.end <= |Text(Items(frags))|
    ensures targets == Some(CoveredBelow(frags, r, |frags|)) && targets.value != []
    ensures |targets.value| <= r.end - r.start
  {
    RunStartEnd(frags);
    var i, position := SeekVisible(frags, r.start);
    StartCollecting(frags, r, i);
    var covered: seq<Target>, consumed: nat := [], r.start;
    hide *;
    while consumed < r.end
      invariant Collecting(frags, r, i, covered, consumed) && i <= |frags| && position == RunStart(frags, i)
      decreases |frags| - i
    {
      CollectRun(frags, r, i, covered, consumed);
      var ok, more, upTo := CollectNext(frags, index, r, i, position, covered, consumed);
      if !ok { return None; }
      covered, consumed, position, i := more, upTo, position + ShownLength(frags[i]), i + 1;
      CollectingBound(frags, r, i, covered, consumed);
    }
    AllCollected(frags, r, i, covered, consumed);
    return Some(covered);
  }

  lemma {:induction false} CollectingBound(frags: seq<Fragment>, r: Range, i: nat, covered: seq<Target>, consumed: nat)
    requires Collecting(frags, r, i, covered, consumed)
    ensures i <= |frags|
  {
  }

  method CollectNext(frags: seq<Fragment>, index: RunIndex, r: Range, i: nat, position: nat, covered: seq<Target>, consumed: nat)
    returns (ok: bool, covered': seq<Target>, consumed': nat)
    requires Coherent(frags, index) && i < |frags| && Collecting(frags, r, i, covered, consumed) && consumed < r.end
    requires position == RunStart(frags, i) <= consumed && RunStart(frags, i + 1) == RunStart(frags, i) + ShownLength(frags[i])
    ensures ok && Collecting(frags, r, i + 1, covered', consumed')
  {
    hide Collecting, Coherent, CoherentAs, RunStart, CoveredBelow, Text, Items, InBounds, Length;
    if TakeFirst(frags, i, consumed) < TakeLast(frags, i, r) {
      CollectTaken(frags, r, i, covered, consumed);
    } else {
      CollectSkipped(frags, r, i, covered, consumed);
    }
    RanksBelow(frags, r, i, covered, consumed);
    ok, covered', consumed' := true, covered, consumed;
    if Shows(frags[i]) {
      if position > consumed { return false, covered, consumed; }
      var first: nat := consumed - position;
      var last: nat := if r.end - position < |frags[i].text| then r.end - position else |frags[i].text|;
      if last <= first {
        if position + |frags[i].text| != consumed { return false, covered, consumed; }
      } else {
        var rank := RankOf(frags, index, i);
        if rank.None? || (covered != [] && rank.value <= covered[|covered| - 1].frag) { return false, covered, consumed; }
        covered', consumed' := covered + [Target(rank.value, first, last - first)], consumed + (last - first);
      }
    }
  }

  lemma {:induction false} RanksBelow(frags: seq<Fragment>, r: Range, i: nat, covered: seq<Target>, consumed: nat)
    requires Collecting(frags, r, i, covered, consumed)
    ensures covered != [] ==> covered[|covered| - 1].frag < i
  {
    if covered != [] { assert covered[|covered| - 1] in covered; }
  }

  /** The rank the index gives for a run is its rank. */
  method RankOf(frags: seq<Fragment>, index: RunIndex, i: nat) returns (rank: Option<nat>)
    requires Coherent(frags, index) && i < |frags|
    ensures rank == Some(i)
  {
    RowIsRunAt(frags, index, i);
    hide Coherent;
    var row := index.origins[frags[i].origin];
    if row.end != End(frags[i]) { return None; }
    rank := RetainedRank(frags, index, row.run);
  }

  lemma {:induction false} RowIsRunAt(frags: seq<Fragment>, index: RunIndex, i: nat)
    requires Coherent(frags, index) && i < |frags|
    ensures frags[i].origin in index.origins && index.origins[frags[i].origin].end == End(frags[i])
    ensures index.origins[frags[i].origin].run in index.directory
    ensures forall j :: (0 <= j < |frags| && frags[j].origin in index.origins
                         && index.origins[frags[j].origin].run == index.origins[frags[i].origin].run) ==> j == i
  {
    assert index.directory[RunsOf(frags, index.origins)[i]] == i;
  }
}
