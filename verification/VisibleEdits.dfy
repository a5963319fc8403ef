/** Deleting or replacing a visible range without flattening the document. The
    outcome is the general path's: the same items, a coherent index, and an
    operation that deletes the same identities. */
module VisibleEdits {
  import opened Ids
  import opened FugueOrder
  import opened Fragments
  import opened Histories
  import opened Indexes
  import opened Sorting
  import opened DeletionPacking
  import opened DeletionRuns
  import opened Representation
  import opened VisibleText
  import opened LocalEdits
  import opened VisibleRuns
  import opened StagedRuns
  import opened RunPublication
  import opened RunRows

  // ---- Deletion descriptors ----------------------------------------------

  const MAX_COUNT: nat := 0xFFFF_FFFF

  ghost predicate SegmentsAscend(s: seq<DeletionRun>) {
    forall i, j :: 0 <= i < j < |s| ==> !IdLess(s[j].first, s[i].first)
  }

  function FirstKey(s: DeletionRun): SortKey {
    IdentityKey(s.first)
  }

  method SortSegments(segments: seq<DeletionRun>) returns (sorted: seq<DeletionRun>)
    ensures SegmentsAscend(sorted) && |sorted| == |segments| && forall x :: x in sorted <==> x in segments
    ensures multiset(sorted) == multiset(segments)
  {
    sorted := SortBy(segments, FirstKey);
    forall i, j | 0 <= i < j < |sorted|
      ensures !IdLess(sorted[j].first, sorted[i].first)
    {
      assert !KeyBelow(FirstKey(sorted[j]), FirstKey(sorted[i]));
    }
  }

  /** One more segment: appended to the last run if it continues it. */
  lemma {:induction false} SegmentStep(runs: seq<DeletionRun>, s: DeletionRun, id: Identity)
    ensures Covered(runs + [s], id) <==> Covered(runs, id) || InDeletion(s, id)
    ensures runs != [] && Continues(runs[|runs| - 1], s) ==>
              (Covered(runs[..|runs| - 1] + [DeletionRun(runs[|runs| - 1].first, runs[|runs| - 1].count + s.count)], id)
               <==> Covered(runs, id) || InDeletion(s, id))
  {
    CoveredLast(runs, s, id);
    if runs != [] {
      var init, last := runs[..|runs| - 1], runs[|runs| - 1];
      assert runs == init + [last];
      CoveredLast(init, last, id);
      CoveredLast(init, DeletionRun(last.first, last.count + s.count), id);
    }
  }

  lemma {:induction false} CoveredLast(runs: seq<DeletionRun>, s: DeletionRun, id: Identity)
    ensures Covered(runs + [s], id) <==> Covered(runs, id) || InDeletion(s, id)
  {
    if InDeletion(s, id) { assert s in runs + [s]; }
    if Covered(runs, id) {
      var r :| r in runs && InDeletion(r, id);
      assert r in runs + [s];
    }
  }

  method AddSegment(runs: seq<DeletionRun>, s: DeletionRun) returns (ok: bool, r: seq<DeletionRun>)
    requires s.count > 0 && forall x :: x in runs ==> x.count > 0
    ensures ok ==> (forall id :: Covered(r, id) <==> Covered(runs, id) || InDeletion(s, id)) && forall x :: x in r ==> x.count > 0
    ensures ok ==> r != [] && EndOf(r[|r| - 1]) == EndOf(s)
    ensures ok ==> |r| == |runs| + if runs != [] && Continues(runs[|runs| - 1], s) then 0 else 1
  {
    forall id
      ensures Covered(runs + [s], id) <==> Covered(runs, id) || InDeletion(s, id)
    {
      SegmentStep(runs, s, id);
    }
    r := runs + [s];
    if runs != [] && Continues(runs[|runs| - 1], s) {
      var last := runs[|runs| - 1];
      if s.count > MAX_COUNT - last.count { return false, runs; }
      r := runs[..|runs| - 1] + [DeletionRun(last.first, last.count + s.count)];
      forall id
        ensures Covered(r, id) <==> Covered(runs, id) || InDeletion(s, id)
      {
        SegmentStep(runs, s, id);
      }
    }
    ok := true;
  }

  function EndOf(s: DeletionRun): Identity {
    Identity(s.first.actor, s.first.counter + s.count)
  }

  /** No two segments start at the same identity. */
  ghost predicate FirstsDiffer(segments: seq<DeletionRun>) {
    forall i, j :: 0 <= i < j < |segments| ==> segments[i].first != segments[j].first
  }

  lemma {:induction false} SortedStrictly(segments: seq<DeletionRun>, sorted: seq<DeletionRun>)
    requires SegmentsAscend(sorted) && multiset(sorted) == multiset(segments) && FirstsDiffer(segments)
    requires forall s :: s in segments ==> s.count > 0
    ensures Breaks(sorted) == |Heads(PiecesOf(segments))|
  {
    forall i, j | 0 <= i < j < |segments|
      ensures segments[i] != segments[j]
    {
      assert segments[i].first != segments[j].first;
    }
    RearrangedNoneTwice(segments, sorted);
    SameElements(segments, sorted);
    forall i, j | 0 <= i < j < |sorted|
      ensures IdLess(sorted[i].first, sorted[j].first)
    {
      assert !IdLess(sorted[j].first, sorted[i].first);
      FirstsStillDiffer(segments, sorted, i, j);
    }
    BreaksAreHeads(sorted);
    assert PiecesOf(sorted) == PiecesOf(segments);
  }

  lemma {:induction false} SameElements(segments: seq<DeletionRun>, sorted: seq<DeletionRun>)
    requires multiset(sorted) == multiset(segments)
    ensures forall x :: x in sorted <==> x in segments
  {
    forall x
      ensures x in sorted <==> x in segments
    {
      assert x in sorted <==> x in multiset(sorted);
      assert x in segments <==> x in multiset(segments);
    }
  }

  lemma {:induction false} FirstsStillDiffer(segments: seq<DeletionRun>, sorted: seq<DeletionRun>, i: nat, j: nat)
    requires (forall x :: x in sorted <==> x in segments) && NoneTwice(sorted) && FirstsDiffer(segments) && i < j < |sorted|
    ensures sorted[i].first != sorted[j].first
  {
    assert sorted[i] in segments && sorted[j] in segments;
    var a :| 0 <= a < |segments| && segments[a] == sorted[i];
    var b :| 0 <= b < |segments| && segments[b] == sorted[j];
    assert sorted[i] != sorted[j];
    if a < b { assert segments[a].first != segments[b].first; }
    if b < a { assert segments[b].first != segments[a].first; }
  }

  /** Sort the segments and join those that continue each other. Refused only when
      a joined count is out of range. */
  method PackSegments(segments: seq<DeletionRun>) returns (ok: bool, runs: seq<DeletionRun>)
    requires forall s :: s in segments ==> s.count > 0
    ensures ok ==> (forall id :: Covered(runs, id) <==> Covered(segments, id)) && forall x :: x in runs ==> x.count > 0
    ensures ok ==> |runs| <= |segments|
    ensures ok && FirstsDiffer(segments) ==> |runs| == |Heads(PiecesOf(segments))|
  {
    var sorted := SortSegments(segments);
    runs := [];
    hide Breaks, Continues;
    NoBreaks(sorted);
    for k := 0 to |sorted|
      invariant forall id :: Covered(runs, id) <==> Covered(sorted[..k], id)
      invariant forall x :: x in runs ==> x.count > 0
      invariant |runs| <= k && |runs| == Breaks(sorted[..k])
      invariant k > 0 ==> runs != [] && EndOf(runs[|runs| - 1]) == EndOf(sorted[k - 1])
      invariant runs == [] ==> k == 0
    {
      assert sorted[..k + 1] == sorted[..k] + [sorted[k]] && sorted[k] in sorted;
      BreaksNext(sorted, k);
      if k > 0 { SameEnd(runs[|runs| - 1], sorted[k - 1], sorted[k]); }
      forall id
        ensures Covered(sorted[..k + 1], id) <==> Covered(sorted[..k], id) || InDeletion(sorted[k], id)
      {
        CoveredLast(sorted[..k], sorted[k], id);
      }
      hide Covered, InDeletion, SegmentsAscend;
      ok, runs := AddSegment(runs, sorted[k]);
      if !ok { return; }
    }
    assert sorted[..|sorted|] == sorted;
    ok := true;
    if FirstsDiffer(segments) { SortedStrictly(segments, sorted); }
  }

  lemma {:induction false} NoBreaks(s: seq<DeletionRun>)
    ensures Breaks(s[..0]) == 0
  {
  }

  lemma {:induction false} BreaksNext(s: seq<DeletionRun>, k: nat)
    requires k < |s|
    ensures Breaks(s[..k + 1]) == Breaks(s[..k]) + if k > 0 && Continues(s[k - 1], s[k]) then 0 else 1
  {
    var more := s[..k + 1];
    assert more[..k] == s[..k];
  }

  lemma {:induction false} SameEnd(a: DeletionRun, b: DeletionRun, s: DeletionRun)
    requires EndOf(a) == EndOf(b)
    ensures Continues(a, s) <==> Continues(b, s)
  {
  }

  function Segments(frags: seq<Fragment>, covered: seq<Target>): (r: seq<DeletionRun>)
    requires AllInBounds(frags, covered)
    ensures |r| == |covered|
  {
    seq(|covered|, k requires 0 <= k < |covered| =>
      assert covered[k] in covered;
      DeletionRun(ItemAt(frags[covered[k].frag], covered[k].off), covered[k].count))
  }

  lemma {:induction false} CoveredIn(frags: seq<Fragment>, r: Range, n: nat, i: nat)
    requires i < n <= |frags| && IsCovered(frags, i, r)
    ensures CoveredPart(frags, i, r) in CoveredBelow(frags, r, n)
  {
    hide IsCovered, CoveredPart;
    if i < n - 1 { CoveredIn(frags, r, n - 1, i); }
  }

  lemma {:induction false} ChosenInRun(frags: seq<Fragment>, r: Range, i: nat, k: nat)
    requires i < |frags| && k < Length(frags[i])
    ensures Start(frags, i) + k < |Items(frags)| && Items(frags)[Start(frags, i) + k].node.id == ItemAt(frags[i], k)
    ensures Chosen(Items(frags), [r], Start(frags, i) + k)
            <==> IsCovered(frags, i, r) && CoverFirst(frags, i, r) <= k < CoverLast(frags, i, r)
  {
    FlatItem(frags, Pos(i, k));
    OffsetInRun(frags, i, k);
    hide RunStart, Offset, Items, Start;
    assert forall o: nat :: InRanges([r], o) <==> r.start <= o < r.end by {
      assert r in [r];
    }
  }

  /** The segments name exactly the scalars of the range. */
  lemma {:induction false} SegmentsAreChosen(frags: seq<Fragment>, r: Range, id: Identity)
    ensures Covered(Segments(frags, CoveredBelow(frags, r, |frags|)), id) <==> id in ChosenIds(Items(frags), [r])
  {
    var c := CoveredBelow(frags, r, |frags|);
    var s := Segments(frags, c);
    if id in ChosenIds(Items(frags), [r]) {
      var j :| 0 <= j < |Items(frags)| && Chosen(Items(frags), [r], j) && Items(frags)[j].node.id == id;
      ChosenIsCovered(frags, r, j);
    }
    if Covered(s, id) {
      var x :| x in s && InDeletion(x, id);
      var k :| 0 <= k < |s| && s[k] == x;
      TargetAt(frags, r, id, k);
      SegmentIsChosen(frags, r, c[k].frag, id);
    }
  }

  lemma {:induction false} ChosenIsCovered(frags: seq<Fragment>, r: Range, j: nat)
    requires j < |Items(frags)| && Chosen(Items(frags), [r], j)
    ensures Covered(Segments(frags, CoveredBelow(frags, r, |frags|)), Items(frags)[j].node.id)
  {
    var p := Unflat(frags, j);
    var c := CoveredBelow(frags, r, |frags|);
    ChosenInRun(frags, r, p.frag, p.off);
    hide Chosen, Items, IsCovered, CoverFirst, CoverLast;
    CoveredIn(frags, r, |frags|, p.frag);
    var k :| 0 <= k < |c| && c[k] == CoveredPart(frags, p.frag, r);
    assert Segments(frags, c)[k] in Segments(frags, c) && InDeletion(Segments(frags, c)[k], ItemAt(frags[p.frag], p.off));
  }

  lemma {:induction false} SegmentIsChosen(frags: seq<Fragment>, r: Range, i: nat, id: Identity)
    requires i < |frags| && IsCovered(frags, i, r)
    requires var t := CoveredPart(frags, i, r); InDeletion(DeletionRun(ItemAt(frags[i], t.off), t.count), id)
    ensures id in ChosenIds(Items(frags), [r])
  {
    CoveredBounds(frags, i, r);
    ChosenInRun(frags, r, i, id.counter - frags[i].origin.counter);
  }

  // ---- Which runs stay ---------------------------------------------------

  ghost predicate Uncovered(frags: seq<Fragment>, r: Range, n: nat, f: Fragment)
    requires n <= |frags|
  {
    exists i :: 0 <= i < n && !IsCovered(frags, i, r) && frags[i] == f
  }

  lemma {:induction false} StagedMembers(frags: seq<Fragment>, r: Range, d: Identity, n: nat)
    requires n <= |frags|
    ensures forall f :: f in Staged(frags, r, d, 0, n) <==> Uncovered(frags, r, n, f) || f in Flatten(Planned(frags, r, d, n))
  {
    hide IsCovered, StagedRun, CoveredBelow, Planned, Flatten;
    if n == 0 {
      NothingPlanned(frags, r, d);
    } else {
      StagedMembers(frags, r, d, n - 1);
      PlannedStep(frags, r, d, n - 1);
      UncoveredStays(frags, r, d, n - 1);
      FlattenStep(Planned(frags, r, d, n - 1), StagedRun(frags, r, d, n - 1));
      UncoveredStep(frags, r, n - 1);
    }
  }

  lemma {:induction false} NothingPlanned(frags: seq<Fragment>, r: Range, d: Identity)
    ensures Flatten(Planned(frags, r, d, 0)) == []
  {
  }

  lemma {:induction false} UncoveredStep(frags: seq<Fragment>, r: Range, n: nat)
    requires n < |frags|
    ensures forall f :: Uncovered(frags, r, n + 1, f) <==> Uncovered(frags, r, n, f) || (!IsCovered(frags, n, r) && f == frags[n])
  {
    hide IsCovered;
    forall f | Uncovered(frags, r, n, f)
      ensures Uncovered(frags, r, n + 1, f)
    {
      var i :| 0 <= i < n && !IsCovered(frags, i, r) && frags[i] == f;
      assert i < n + 1;
    }
    if !IsCovered(frags, n, r) { assert Uncovered(frags, r, n + 1, frags[n]); }
  }

  lemma {:induction false} UncoveredIsKept(frags: seq<Fragment>, r: Range, f: Fragment)
    requires StartsDiffer(frags)
    ensures Uncovered(frags, r, |frags|, f) <==> f in frags && f.origin !in StartsOf(frags, CoveredBelow(frags, r, |frags|))
  {
    var c := CoveredBelow(frags, r, |frags|);
    if f in frags && f.origin !in StartsOf(frags, c) {
      var i :| 0 <= i < |frags| && frags[i] == f;
      if IsCovered(frags, i, r) { CoveredIn(frags, r, |frags|, i); }
    }
    if Uncovered(frags, r, |frags|, f) && f.origin in StartsOf(frags, c) {
      var i :| 0 <= i < |frags| && !IsCovered(frags, i, r) && frags[i] == f;
      var t :| t in c && frags[t.frag].origin == f.origin;
      var k :| 0 <= k < |c| && c[k] == t;
      hide IsCovered, CoveredBelow, CoveredPart;
      TargetAt(frags, r, f.origin, k);
    }
  }

  /** The staged runs are the ones not covered, the pieces and the new run. */
  lemma {:induction false} StagedKeeps(frags: seq<Fragment>, r: Range, d: Identity, insert: Option<nat>, f: Option<Fragment>, added: seq<Fragment>, next: RunId)
    requires StartsDiffer(frags) && next + |added| <= U64
    requires insert.Some? ==> insert.value <= |Staged(frags, r, d, 0, |frags|)|
    requires added == Flatten(Planned(frags, r, d, |frags|)) + (if f.Some? then [f.value] else [])
    ensures Keeps(frags, StartsOf(frags, CoveredBelow(frags, r, |frags|)), Entries(added, next),
                  PutRun(Staged(frags, r, d, 0, |frags|), insert, f))
  {
    var staged := Staged(frags, r, d, 0, |frags|);
    StagedMembers(frags, r, d, |frags|);
    hide Staged, Planned, Flatten, CoveredBelow, StartsOf, Uncovered, StartsDiffer;
    forall x
      ensures x in PutRun(staged, insert, f) <==>
                (x in frags && x.origin !in StartsOf(frags, CoveredBelow(frags, r, |frags|))) || Entered(Entries(added, next), x)
    {
      UncoveredIsKept(frags, r, x);
      EnteredIsAdded(added, next, x);
      PutHas(staged, if insert.Some? then insert.value else 0, f, x);
    }
  }

  lemma {:induction false} EnteredIsAdded(added: seq<Fragment>, next: RunId, f: Fragment)
    requires next + |added| <= U64
    ensures Entered(Entries(added, next), f) <==> f in added
  {
    if f in added {
      var j :| 0 <= j < |added| && added[j] == f;
      assert Entries(added, next)[j].frag == f && Entries(added, next)[j] in Entries(added, next);
    }
  }

  lemma {:induction false} PutHas<T>(s: seq<T>, at: nat, x: Option<T>, y: T)
    requires at <= |s|
    ensures y in Put(s, at, x) <==> y in s || x == Some(y)
  {
    assert s == s[..at] + s[at..];
  }

  // ---- Publication -------------------------------------------------------

  method CollectSegments(frags: seq<Fragment>, covered: seq<Target>) returns (segments: seq<DeletionRun>)
    requires AllInBounds(frags, covered)
    ensures segments == Segments(frags, covered) && forall s :: s in segments ==> s.count > 0
  {
    segments := [];
    for k := 0 to |covered|
      invariant |segments| == k && (forall j :: 0 <= j < k ==> segments[j] == Segments(frags, covered)[j])
      invariant forall s :: s in segments ==> s.count > 0
    {
      var t := covered[k];
      assert t in covered;
      segments := segments + [DeletionRun(ItemAt(frags[t.frag], t.off), t.count)];
    }
  }

  /** The runs after the edit. */
  ghost function RunsAfter(frags: seq<Fragment>, r: Range, d: Identity, insert: Option<nat>, f: Option<Fragment>): seq<Fragment>
    requires insert.Some? ==> insert.value <= |Staged(frags, r, d, 0, |frags|)|
  {
    PutRun(Staged(frags, r, d, 0, |frags|), insert, f)
  }

  lemma {:induction false} InsertFits(frags: seq<Fragment>, r: Range, d: Identity, insert: Option<nat>)
    requires CoveredBelow(frags, r, |frags|) != [] && (insert.Some? ==> InsertsAt(frags, r, insert.value))
    ensures insert.Some? ==> insert.value <= |Staged(frags, r, d, 0, |frags|)|
    ensures forall t :: t in CoveredBelow(frags, r, |frags|) ==> t.frag < |frags|
    ensures |frags| <= |Staged(frags, r, d, 0, |frags|)|
  {
    hide Staged, StagedRun, IsCovered, CoveredBelow, Planned;
    LastGap(frags, r, d);
    StagedGrows(frags, r, d, |frags|);
    if insert.Some? { InsertsWhere(frags, r, insert); }
  }

  lemma {:induction false} StagedGrows(frags: seq<Fragment>, r: Range, d: Identity, n: nat)
    requires n <= |frags|
    ensures n <= |Staged(frags, r, d, 0, n)|
  {
    hide StagedRun;
    if n > 0 { StagedGrows(frags, r, d, n - 1); }
  }

  /** Stage the covered runs and the new one, check the order, exchange the rows
      and pack the descriptors; or leave everything as it was. */
  method PublishRuns(frags: seq<Fragment>, index: RunIndex, undo: seq<UndoEntry>, r: Range, covered: seq<Target>, d: Identity,
                     insert: Option<nat>, f: Option<Fragment>)
    returns (done: bool, all: seq<Fragment>, index': RunIndex, runs: seq<DeletionRun>)
    requires index.valid && NonEmptyRuns(frags) && Coherent(frags, index) && !Undone(undo, d)
    requires covered == CoveredBelow(frags, r, |frags|) && covered != []
    requires (insert.Some? <==> f.Some?) && (insert.Some? ==> InsertsAt(frags, r, insert.value))
    requires f.Some? ==> Length(f.value) > 0
    requires insert.Some? ==> insert.value <= |Staged(frags, r, d, 0, |frags|)|
    requires Distinct(DocOf(RunsAfter(frags, r, d, insert, f)))
    ensures done ==> all == RunsAfter(frags, r, d, insert, f) && NonEmptyRuns(all) && index'.valid && Coherent(all, index')
    ensures done ==> Spends(index, |all| + 1, index')
    ensures done ==> |runs| == StagedRunCount(frags, r)
    ensures done ==> (forall id :: Covered(runs, id) <==> id in ChosenIds(Items(frags), [r]))
    ensures done ==> (forall x :: x in runs ==> x.count > 0) && |runs| <= |covered|
  {
    hide *;
    done, all, index', runs := false, frags, index, [];
    if index.nextRun == 0 { return; }
    var planned, pieces := PlanPieces(frags, undo, r, covered, d);
    if !planned { return; }
    var added := FlattenPieces(pieces);
    if added == [] || index.nextRun + |added| >= U64 { return; }
    var staged, tree := StagePieces(frags, r, covered, pieces, d);
    if !staged { return; }
    InsertsWhere(frags, r, insert);
    AllCoveredInBounds(frags, r);
    var with := PutStaged(tree, insert, f);
    var checked := VerifyOrder(frags, r, covered, pieces, |added|, with, insert, f, d);
    if !checked { return; }
    AfterIsPut(frags, r, d, insert, f);
    AfterIsKept(frags, index, r, d, insert, f, pieces);
    var more := if f.Some? then [f.value] else [];
    var exchanged, index1 := ExchangeRows(frags, index, covered, added + more, |added|, with);
    if !exchanged { return; }
    FewPieces(frags, r, d, insert, f);
    SpendsLess(index, |added| + 1, index1);
    var segments := CollectSegments(frags, covered);
    var packed, runs1 := PackSegments(segments);
    if !packed { return; }
    forall id
      ensures Covered(segments, id) <==> id in ChosenIds(Items(frags), [r])
    {
      SegmentsAreChosen(frags, r, id);
    }
    SegmentsDiffer(frags, index, r);
    CountIs(frags, r);
    done, all, index', runs := true, with, index1, runs1;
  }

  /** There are no more pieces than runs in the end. */
  lemma {:induction false} FewPieces(frags: seq<Fragment>, r: Range, d: Identity, insert: Option<nat>, f: Option<Fragment>)
    requires insert.Some? ==> insert.value <= |Staged(frags, r, d, 0, |frags|)|
    ensures |Flatten(Planned(frags, r, d, |frags|))| <= |RunsAfter(frags, r, d, insert, f)|
  {
    StagedLength(frags, r, d, |frags|);
    CoveredAreFew(frags, r, |frags|);
    hide Staged, Planned, Flatten, CoveredBelow;
  }

  lemma {:induction false} CoveredAreFew(frags: seq<Fragment>, r: Range, n: nat)
    requires n <= |frags|
    ensures |CoveredBelow(frags, r, n)| <= n
  {
    hide IsCovered;
    if n > 0 { CoveredAreFew(frags, r, n - 1); }
  }

  /** How many deletion runs a staged edit of this range has. */
  ghost function StagedRunCount(frags: seq<Fragment>, r: Range): nat {
    |Heads(PiecesOf(Segments(frags, CoveredBelow(frags, r, |frags|))))|
  }

  lemma {:induction false} CountIs(frags: seq<Fragment>, r: Range)
    ensures AllInBounds(frags, CoveredBelow(frags, r, |frags|))
    ensures StagedRunCount(frags, r) == |Heads(PiecesOf(Segments(frags, CoveredBelow(frags, r, |frags|))))|
  {
  }

  /** The staged edit never has more deletion runs than the general path. */
  lemma {:induction false} StagedIsTighter(frags: seq<Fragment>, r: Range)
    requires NonEmptyRuns(frags) && Apart(frags)
    ensures StagedRunCount(frags, r) <= FlatRunCount(Items(frags), [r])
  {
    CountIs(frags, r);
    SegmentsCut(frags, r);
    hide *;
    PiecesPackTighter(PiecesOf(Segments(frags, CoveredBelow(frags, r, |frags|))), ChosenIds(Items(frags), [r]));
    FlatCountIs(Items(frags), [r]);
  }

  lemma {:induction false} FlatCountIs(items: seq<Item>, ranges: seq<Range>)
    ensures FlatRunCount(items, ranges) == |Heads(Singles(ChosenIds(items, ranges)))|
  {
  }

  lemma {:induction false} SegmentsCut(frags: seq<Fragment>, r: Range)
    requires NonEmptyRuns(frags) && Apart(frags)
    ensures AllInBounds(frags, CoveredBelow(frags, r, |frags|))
    ensures Cuts(PiecesOf(Segments(frags, CoveredBelow(frags, r, |frags|))), ChosenIds(Items(frags), [r]))
  {
    AllCoveredInBounds(frags, r);
    var covered := CoveredBelow(frags, r, |frags|);
    var segments := Segments(frags, covered);
    hide CoveredBelow, ChosenIds, Items, NonEmptyRuns;
    forall x | x in segments
      ensures x.count > 0
    {
      var k :| 0 <= k < |segments| && segments[k] == x;
      assert covered[k] in covered;
    }
    forall x, y, id | x in segments && y in segments && InDeletion(x, id) && InDeletion(y, id)
      ensures x == y
    {
      var j :| 0 <= j < |segments| && segments[j] == x;
      var k :| 0 <= k < |segments| && segments[k] == y;
      if j < k { SegmentsSeparate(frags, r, j, k, id); }
      if k < j { SegmentsSeparate(frags, r, k, j, id); }
    }
    forall id
      ensures id in ChosenIds(Items(frags), [r]) <==> exists x :: x in segments && InDeletion(x, id)
    {
      SegmentsAreChosen(frags, r, id);
    }
    hide Segments;
  }

  lemma {:induction false} SegmentsSeparate(frags: seq<Fragment>, r: Range, j: nat, k: nat, id: Identity)
    requires Apart(frags) && AllInBounds(frags, CoveredBelow(frags, r, |frags|))
    requires j < k < |CoveredBelow(frags, r, |frags|)|
    ensures var segments := Segments(frags, CoveredBelow(frags, r, |frags|));
            !(InDeletion(segments[j], id) && InDeletion(segments[k], id))
  {
    var covered := CoveredBelow(frags, r, |frags|);
    assert covered[j] in covered && covered[k] in covered;
    CoveredPair(frags, r, Identity(0, 0), j, k);
    hide CoveredBelow, IsCovered;
    assert Separate(frags[covered[j].frag], frags[covered[k].frag]);
  }

  /** Pieces of different runs start at different identities. */
  lemma {:induction false} SegmentsDiffer(frags: seq<Fragment>, index: RunIndex, r: Range)
    requires Coherent(frags, index)
    ensures AllInBounds(frags, CoveredBelow(frags, r, |frags|))
    ensures FirstsDiffer(Segments(frags, CoveredBelow(frags, r, |frags|)))
  {
    var covered := CoveredBelow(frags, r, |frags|);
    assert Apart(frags);
    hide Coherent, CoherentAs, CoveredBelow;
    forall i, j | 0 <= i < j < |covered|
      ensures ItemAt(frags[covered[i].frag], covered[i].off) != ItemAt(frags[covered[j].frag], covered[j].off)
    {
      assert covered[i] in covered && covered[j] in covered;
      CoveredPair(frags, r, Identity(0, 0), i, j);
      assert Separate(frags[covered[i].frag], frags[covered[j].frag]);
    }
  }

  method PutStaged(tree: seq<Fragment>, insert: Option<nat>, f: Option<Fragment>) returns (r: seq<Fragment>)
    requires (insert.Some? <==> f.Some?) && (insert.Some? ==> insert.value <= |tree|)
    ensures r == PutRun(tree, insert, f)
  {
    r := tree;
    if f.Some? { r := tree[..insert.value] + [f.value] + tree[insert.value..]; }
  }

  method FlattenPieces(pieces: seq<seq<Fragment>>) returns (r: seq<Fragment>)
    ensures r == Flatten(pieces)
  {
    r := [];
    assert pieces[..0] == [];
    for k := 0 to |pieces|
      invariant r == Flatten(pieces[..k])
    {
      assert pieces[..k + 1] == pieces[..k] + [pieces[k]];
      FlattenStep(pieces[..k], pieces[k]);
      r := r + pieces[k];
    }
    assert pieces[..|pieces|] == pieces;
  }

  lemma {:induction false} AllCoveredInBounds(frags: seq<Fragment>, r: Range)
    ensures AllInBounds(frags, CoveredBelow(frags, r, |frags|))
  {
  }

  lemma {:induction false} AfterIsPut(frags: seq<Fragment>, r: Range, d: Identity, insert: Option<nat>, f: Option<Fragment>)
    requires insert.Some? ==> insert.value <= |Staged(frags, r, d, 0, |frags|)|
    ensures RunsAfter(frags, r, d, insert, f) == PutRun(Staged(frags, r, d, 0, |frags|), insert, f)
  {
  }

  lemma {:induction false} AfterIsKept(frags: seq<Fragment>, index: RunIndex, r: Range, d: Identity, insert: Option<nat>, f: Option<Fragment>,
                                       pieces: seq<seq<Fragment>>)
    requires NonEmptyRuns(frags) && Coherent(frags, index) && pieces == Planned(frags, r, d, |frags|)
    requires (insert.Some? <==> f.Some?) && (f.Some? ==> Length(f.value) > 0)
    requires insert.Some? ==> insert.value <= |Staged(frags, r, d, 0, |frags|)|
    requires index.nextRun + |Flatten(pieces)| < U64
    ensures AllInBounds(frags, CoveredBelow(frags, r, |frags|))
    ensures NonEmptyRuns(PutRun(Staged(frags, r, d, 0, |frags|), insert, f))
    ensures Keeps(frags, StartsOf(frags, CoveredBelow(frags, r, |frags|)),
                  Entries(Flatten(pieces) + (if f.Some? then [f.value] else []), index.nextRun),
                  PutRun(Staged(frags, r, d, 0, |frags|), insert, f))
  {
    CoherentStarts(frags, index);
    hide *;
    AllCoveredInBounds(frags, r);
    StagedItems(frags, r, d, |frags|);
    StagedKeeps(frags, r, d, insert, f, Flatten(pieces) + (if f.Some? then [f.value] else []), index.nextRun);
    PutNonEmpty(Staged(frags, r, d, 0, |frags|), insert, f);
  }

  lemma {:induction false} PutNonEmpty(staged: seq<Fragment>, insert: Option<nat>, f: Option<Fragment>)
    requires NonEmptyRuns(staged) && (f.Some? ==> Length(f.value) > 0) && (insert.Some? ==> insert.value <= |staged|)
    ensures NonEmptyRuns(PutRun(staged, insert, f))
  {
    hide Length;
  }

  /** The staged order is what the ranks predict, always. */
  method VerifyOrder(frags: seq<Fragment>, r: Range, covered: seq<Target>, pieces: seq<seq<Fragment>>, total: nat,
                     all: seq<Fragment>, insert: Option<nat>, f: Option<Fragment>, ghost d: Identity)
    returns (ok: bool)
    requires covered == CoveredBelow(frags, r, |frags|) && pieces == Planned(frags, r, d, |frags|) && covered != []
    requires total == |Flatten(pieces)|
    requires (insert.Some? <==> f.Some?) && (insert.Some? ==> InsertsAt(frags, r, insert.value))
    requires insert.Some? ==> insert.value <= |Staged(frags, r, d, 0, |frags|)|
    requires all == PutRun(Staged(frags, r, d, 0, |frags|), insert, f)
    ensures ok
  {
    hide CoveredBelow, Planned, Staged, Flatten, PutRun, InsertsAt, RunPublication.InOrder;
    var first := FirstRank(covered[0].frag, insert);
    var runs := total + if f.Some? then 1 else 0;
    var last := covered[|covered| - 1].frag - |covered| + runs;
    var expected;
    ok, expected := ExpectedOrder(frags, r, d, covered, pieces, insert, OriginOf(f));
    if !ok { return; }
    OrderHolds(frags, r, d, covered, insert, f, expected);
    ok := CheckOrder(all, first, last, expected);
  }
}
