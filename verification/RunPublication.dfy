/** Publishing the edit of a range of visible runs: plan the pieces, stage them
    from the highest rank down, put the new run between them, and check the staged
    order against the order the ranks predict. The check never fails. */
module RunPublication {
  import opened Ids
  import opened Fragments
  import opened DeletionRuns
  import opened Representation
  import opened Visibility
  import opened VisibleText
  import opened VisibleRuns
  import opened StagedRuns

  // ---- Planning ----------------------------------------------------------

  /** What the covered runs below rank `n` become. */
  function Planned(frags: seq<Fragment>, r: Range, d: Identity, n: nat): (p: seq<seq<Fragment>>)
    requires n <= |frags|
    ensures |p| == |CoveredBelow(frags, r, n)|
  {
    if n == 0 then []
    else Planned(frags, r, d, n - 1) + if IsCovered(frags, n - 1, r) then [StagedRun(frags, r, d, n - 1)] else []
  }

  lemma {:induction false} PlannedStep(frags: seq<Fragment>, r: Range, d: Identity, n: nat)
    requires n < |frags|
    ensures if IsCovered(frags, n, r) then
              && CoveredBelow(frags, r, n + 1) == CoveredBelow(frags, r, n) + [CoveredPart(frags, n, r)]
              && Planned(frags, r, d, n + 1) == Planned(frags, r, d, n) + [StagedRun(frags, r, d, n)]
            else
              && CoveredBelow(frags, r, n + 1) == CoveredBelow(frags, r, n)
              && Planned(frags, r, d, n + 1) == Planned(frags, r, d, n)
  {
    hide IsCovered, CoveredPart, StagedRun;
  }

  /** Target `t` is the part of covered run `t.frag`, which is planned as `p`;
      nothing is covered between it and the next one. */
  ghost predicate IsTarget(frags: seq<Fragment>, r: Range, d: Identity, n: nat, k: nat)
    requires n <= |frags| && k < |CoveredBelow(frags, r, n)|
  {
    var c := CoveredBelow(frags, r, n);
    var t := c[k];
    && t.frag < n && IsCovered(frags, t.frag, r) && t == CoveredPart(frags, t.frag, r)
    && CoveredBelow(frags, r, t.frag) == c[..k]
    && Planned(frags, r, d, n)[k] == StagedRun(frags, r, d, t.frag)
    && (if k + 1 < |c| then t.frag < c[k + 1].frag < n && NoneCovered(frags, r, t.frag + 1, c[k + 1].frag)
        else NoneCovered(frags, r, t.frag + 1, n))
  }

  lemma {:induction false} CoveredAt(frags: seq<Fragment>, r: Range, d: Identity, n: nat, k: nat)
    requires n <= |frags| && k < |CoveredBelow(frags, r, n)|
    ensures IsTarget(frags, r, d, n, k)
  {
    hide IsCovered, StagedRun, CoveredBelow, Planned, CoverFirst, CoverLast;
    NothingAtAll(frags, r);
    if n > 0 {
      PlannedStep(frags, r, d, n - 1);
      var c, b := CoveredBelow(frags, r, n), CoveredBelow(frags, r, n - 1);
      if k < |b| {
        CoveredAt(frags, r, d, n - 1, k);
        assert c[..k] == b[..k];
      } else {
        assert c[..k] == b;
      }
    }
  }

  lemma {:induction false} TargetAt(frags: seq<Fragment>, r: Range, d: Identity, k: nat)
    requires k < |CoveredBelow(frags, r, |frags|)|
    ensures var t := CoveredBelow(frags, r, |frags|)[k];
            && t.frag < |frags| && IsCovered(frags, t.frag, r) && t == CoveredPart(frags, t.frag, r)
            && CoveredBelow(frags, r, t.frag) == CoveredBelow(frags, r, |frags|)[..k]
            && Planned(frags, r, d, |frags|)[k] == StagedRun(frags, r, d, t.frag)
  {
    hide IsCovered, StagedRun, CoveredBelow, Planned, CoverFirst, CoverLast, NoneCovered;
    CoveredAt(frags, r, d, |frags|, k);
  }

  lemma {:induction false} TargetGap(frags: seq<Fragment>, r: Range, d: Identity, k: nat)
    requires k + 1 < |CoveredBelow(frags, r, |frags|)|
    ensures var c := CoveredBelow(frags, r, |frags|);
            c[k].frag < c[k + 1].frag < |frags| && NoneCovered(frags, r, c[k].frag + 1, c[k + 1].frag)
  {
    hide IsCovered, StagedRun, CoveredBelow, Planned, CoverFirst, CoverLast, NoneCovered;
    CoveredAt(frags, r, d, |frags|, k);
  }

  lemma {:induction false} LastGap(frags: seq<Fragment>, r: Range, d: Identity)
    requires CoveredBelow(frags, r, |frags|) != []
    ensures var c := CoveredBelow(frags, r, |frags|);
            && c[0].frag <= c[|c| - 1].frag < |frags| && NoneCovered(frags, r, c[|c| - 1].frag + 1, |frags|)
            && NoneCovered(frags, r, 0, c[0].frag)
  {
    hide IsCovered, StagedRun, CoveredBelow, Planned, CoverFirst, CoverLast, NoneCovered;
    var c := CoveredBelow(frags, r, |frags|);
    CoveredAt(frags, r, d, |frags|, |c| - 1);
    TargetAt(frags, r, d, 0);
    NoCovered(frags, r, c[0].frag);
    if |c| > 1 { CoveredPair(frags, r, d, 0, |c| - 1); }
  }

  lemma {:induction false} NothingAtAll(frags: seq<Fragment>, r: Range)
    ensures CoveredBelow(frags, r, 0) == []
  {
  }

  method SplitPieces(f: Fragment, undo: seq<UndoEntry>, t: Target, d: Identity) returns (ok: bool, pieces: seq<Fragment>)
    requires !f.marker && t.count > 0 && t.off + t.count <= |f.text| && !Undone(undo, d)
    ensures ok && pieces == Pieces(f, t.off, t.off + t.count, d)
  {
    var remainder, rest := f, [];
    pieces := [];
    if t.off > 0 {
      pieces, remainder := [Prefix(f, t.off)], Suffix(f, t.off);
    }
    assert remainder == Suffix(f, t.off);
    if t.count > |remainder.text| { return false, []; }
    if t.count < |remainder.text| {
      rest, remainder := [Suffix(remainder, t.count)], Prefix(remainder, t.count);
    }
    assert remainder == Prefix(Suffix(f, t.off), t.count);
    assert t.off + t.count < |f.text| ==> rest == [Suffix(f, t.off + t.count)];
    remainder := AddDeletion(remainder, d);
    var visible := ComputeVisible(remainder, undo);
    assert d in remainder.deletions;
    if visible { return false, []; }
    remainder := remainder.(visible := visible);
    return true, pieces + [remainder] + rest;
  }

  method PlanPieces(frags: seq<Fragment>, undo: seq<UndoEntry>, r: Range, covered: seq<Target>, d: Identity)
    returns (ok: bool, pieces: seq<seq<Fragment>>)
    requires covered == CoveredBelow(frags, r, |frags|) && !Undone(undo, d)
    ensures ok && pieces == Planned(frags, r, d, |frags|)
  {
    pieces := [];
    for k := 0 to |covered|
      invariant |pieces| == k && forall j :: 0 <= j < k ==> pieces[j] == Planned(frags, r, d, |frags|)[j]
    {
      CoveredAt(frags, r, d, |frags|, k);
      CoveredBounds(frags, covered[k].frag, r);
      hide Undone, IsCovered, CoverFirst, CoverLast, Pieces, Planned, CoveredBelow;
      var more;
      ok, more := SplitPieces(frags[covered[k].frag], undo, covered[k], d);
      if !ok { return; }
      pieces := pieces + [more];
    }
    ok := true;
  }

  // ---- Staging -----------------------------------------------------------

  /** Put `pieces` in the place of run `at`, one after the other. */
  method ReplaceRun(frags: seq<Fragment>, at: nat, pieces: seq<Fragment>) returns (r: seq<Fragment>)
    requires at < |frags| && pieces != []
    ensures r == frags[..at] + pieces + frags[at + 1..]
  {
    r := frags[at := pieces[0]];
    for x := 1 to |pieces|
      invariant r == frags[..at] + pieces[..x] + frags[at + 1..]
    {
      assert pieces[..x + 1] == pieces[..x] + [pieces[x]];
      r := r[..at + x] + [pieces[x]] + r[at + x..];
    }
    assert pieces[..|pieces|] == pieces;
  }

  /** Stage the pieces from the highest rank down. */
  method StagePieces(frags: seq<Fragment>, r: Range, covered: seq<Target>, pieces: seq<seq<Fragment>>, ghost d: Identity)
    returns (ok: bool, staged: seq<Fragment>)
    requires covered == CoveredBelow(frags, r, |frags|) && pieces == Planned(frags, r, d, |frags|)
    ensures ok && staged == Staged(frags, r, d, 0, |frags|)
  {
    staged := frags;
    var k := |covered|;
    ghost var m: nat := |frags|;
    assert covered[..k] == covered && frags[..m] + Staged(frags, r, d, m, |frags|) == frags;
    while k > 0
      invariant k <= |covered| && m <= |frags| && covered[..k] == CoveredBelow(frags, r, m)
      invariant staged == frags[..m] + Staged(frags, r, d, m, |frags|)
    {
      k := k - 1;
      var at := covered[k].frag;
      CoveredAt(frags, r, d, |frags|, k);
      StageParts(frags, r, d, covered[..k + 1], at, m);
      ReplaceBelow(frags, m, at, Staged(frags, r, d, m, |frags|), StagedRun(frags, r, d, at));
      hide Staged, StagedRun, Planned, CoveredBelow, IsCovered, NoneCovered;
      if staged[at].origin != frags[at].origin || Length(staged[at]) != Length(frags[at]) { return false, staged; }
      staged := ReplaceRun(staged, at, pieces[k]);
      assert covered[..k + 1][..k] == covered[..k];
      m := at;
    }
    NoCovered(frags, r, m);
    StagedSame(frags, r, d, 0, m);
    StagedJoin(frags, r, d, 0, m, |frags|);
    ok := true;
  }

  lemma {:induction false} StageParts(frags: seq<Fragment>, r: Range, d: Identity, covered: seq<Target>, at: nat, m: nat)
    requires m <= |frags| && covered == CoveredBelow(frags, r, m) && covered != [] && at == covered[|covered| - 1].frag
    ensures at < m && CoveredBelow(frags, r, at) == covered[..|covered| - 1]
    ensures Staged(frags, r, d, at, |frags|) == StagedRun(frags, r, d, at) + (frags[at + 1..m] + Staged(frags, r, d, m, |frags|))
  {
    hide *;
    var j := LastCovered(frags, r, m);
    assert at == j;
    StagedSame(frags, r, d, at + 1, m);
    StagedJoin(frags, r, d, at + 1, m, |frags|);
    StagedOne(frags, r, d, at);
    StagedJoin(frags, r, d, at, at + 1, |frags|);
  }

  lemma {:induction false} ReplaceBelow<T>(s: seq<T>, m: nat, at: nat, tail: seq<T>, mid: seq<T>)
    requires at < m <= |s|
    ensures var r := s[..m] + tail;
            r[at] == s[at] && r[..at] + mid + r[at + 1..] == s[..at] + (mid + (s[at + 1..m] + tail))
  {
    var r := s[..m] + tail;
    assert r[..at] == s[..at];
    assert r[at + 1..] == s[at + 1..m] + tail;
  }

  // ---- The staged order --------------------------------------------------

  function Origins(frags: seq<Fragment>): (r: seq<Identity>)
    ensures |r| == |frags|
  {
    seq(|frags|, i requires 0 <= i < |frags| => frags[i].origin)
  }

  /** `s` with the new run put at `at`, if there is one. */
  function Put<T>(s: seq<T>, at: nat, x: Option<T>): seq<T>
    requires at <= |s|
  {
    if x.None? then s else s[..at] + [x.value] + s[at..]
  }

  function Flatten(pieces: seq<seq<Fragment>>): seq<Fragment> {
    if pieces == [] then [] else Flatten(pieces[..|pieces| - 1]) + pieces[|pieces| - 1]
  }

  /** Every covered run gives way to its pieces, nothing else changes the count. */
  lemma {:induction false} StagedLength(frags: seq<Fragment>, r: Range, d: Identity, n: nat)
    requires n <= |frags|
    ensures |Staged(frags, r, d, 0, n)| + |CoveredBelow(frags, r, n)| == n + |Flatten(Planned(frags, r, d, n))|
  {
    hide IsCovered, CoveredPart, StagedRun, CoveredBelow, Planned;
    if n == 0 {
      NothingAtAll(frags, r);
    } else {
      StagedLength(frags, r, d, n - 1);
      PlannedStep(frags, r, d, n - 1);
      UncoveredStays(frags, r, d, n - 1);
      FlattenStep(Planned(frags, r, d, n - 1), StagedRun(frags, r, d, n - 1));
    }
  }

  lemma {:induction false} UncoveredStays(frags: seq<Fragment>, r: Range, d: Identity, i: nat)
    requires i < |frags|
    ensures !IsCovered(frags, i, r) ==> StagedRun(frags, r, d, i) == [frags[i]]
  {
    hide IsCovered;
  }

  lemma {:induction false} FlattenStep(pieces: seq<seq<Fragment>>, more: seq<Fragment>)
    ensures Flatten(pieces + [more]) == Flatten(pieces) + more
  {
    assert (pieces + [more])[..|pieces|] == pieces;
  }

  /** Where a new run may go: inside the first covered run after its kept front,
      or at or before that run. */
  ghost predicate InsertsAt(frags: seq<Fragment>, r: Range, rank: nat) {
    && CoveredBelow(frags, r, |frags|) != []
    && (var head := CoveredBelow(frags, r, |frags|)[0];
        if head.off > 0 then rank == head.frag + 1 else rank <= head.frag)
  }

  /** The part of the document that changes: from the new run or the first
      covered one, whichever comes first, to the last covered one. */
  function FirstRank(head: nat, insert: Option<nat>): nat {
    if insert.Some? && insert.value < head then insert.value else head
  }

  /** The origins the staged runs must have from the first changed rank on. */
  ghost function OrderOf(frags: seq<Fragment>, r: Range, d: Identity, first: nat, upTo: nat, at: nat, x: Option<Identity>): seq<Identity>
    requires first <= upTo <= |frags| && at <= |Staged(frags, r, d, first, upTo)|
  {
    Put(Origins(Staged(frags, r, d, first, upTo)), at, x)
  }

  lemma {:induction false} PutAppend<T>(s: seq<T>, t: seq<T>, at: nat, x: Option<T>)
    requires at <= |s|
    ensures Put(s, at, x) + t == Put(s + t, at, x)
  {
    if x.Some? {
      assert (s + t)[..at] == s[..at] && (s + t)[at..] == s[at..] + t;
    }
  }

  lemma {:induction false} OriginsAppend(a: seq<Fragment>, b: seq<Fragment>)
    ensures Origins(a + b) == Origins(a) + Origins(b)
  {
  }

  /** Going on to a later rank appends what comes between. */
  lemma {:induction false} OrderGrows(frags: seq<Fragment>, r: Range, d: Identity, first: nat, mid: nat, upTo: nat, at: nat, x: Option<Identity>)
    requires first <= mid <= upTo <= |frags| && at <= |Staged(frags, r, d, first, mid)|
    ensures at <= |Staged(frags, r, d, first, upTo)|
    ensures OrderOf(frags, r, d, first, upTo, at, x) == OrderOf(frags, r, d, first, mid, at, x) + Origins(Staged(frags, r, d, mid, upTo))
  {
    hide Staged;
    StagedJoin(frags, r, d, first, mid, upTo);
    OriginsAppend(Staged(frags, r, d, first, mid), Staged(frags, r, d, mid, upTo));
    PutAppend(Origins(Staged(frags, r, d, first, mid)), Origins(Staged(frags, r, d, mid, upTo)), at, x);
  }

  /** The origins of the untouched runs in ranks `a` to `b`. */
  method GapOrigins(frags: seq<Fragment>, a: nat, b: nat) returns (ok: bool, origins: seq<Identity>)
    requires a <= b <= |frags|
    ensures ok && origins == Origins(frags[a..b])
  {
    origins := [];
    for rank := a to b
      invariant origins == Origins(frags[a..rank])
    {
      if rank >= |frags| { return false, origins; }
      assert frags[a..rank + 1] == frags[a..rank] + [frags[rank]];
      origins := origins + [frags[rank].origin];
    }
    ok := true;
  }

  /** Where in the changed part the new run goes. */
  function InsertOffset(head: nat, insert: Option<nat>): nat {
    if insert.None? then 0 else insert.value - FirstRank(head, insert)
  }

  /** The origins from the first changed rank up to rank `upTo`. */
  ghost predicate InOrder(frags: seq<Fragment>, r: Range, d: Identity, head: nat, insert: Option<nat>, x: Option<Identity>,
                          upTo: nat, expected: seq<Identity>) {
    var first, at := FirstRank(head, insert), InsertOffset(head, insert);
    && first <= upTo <= |frags| && at <= |Staged(frags, r, d, first, upTo)|
    && expected == OrderOf(frags, r, d, first, upTo, at, x)
  }

  /** The first covered run, with the new run before it or after its kept front. */
  method HeadOrder(frags: seq<Fragment>, r: Range, ghost d: Identity, head: Target, pieces: seq<Fragment>, insert: Option<nat>, x: Option<Identity>)
    returns (ok: bool, expected: seq<Identity>)
    requires head.frag < |frags| && NoneCovered(frags, r, 0, head.frag) && pieces == StagedRun(frags, r, d, head.frag)
    requires insert.Some? <==> x.Some?
    requires insert.Some? ==> if head.off > 0 then insert.value == head.frag + 1 else insert.value <= head.frag
    ensures ok && InOrder(frags, r, d, head.frag, insert, x, head.frag + 1, expected)
  {
    HeadInOrder(frags, r, d, head.frag, head.off > 0, pieces, insert, x);
    hide *;
    ok, expected := true, [];
    var emitted, from := false, 0;
    if insert.Some? && insert.value < head.frag {
      var gap;
      ok, gap := GapOrigins(frags, insert.value, head.frag);
      if !ok { return; }
      expected, emitted := [x.value] + gap, true;
    }
    if insert.Some? && head.off > 0 {
      expected, from := expected + [pieces[0].origin], 1;
    }
    if insert.Some? && !emitted {
      expected := expected + [x.value];
    }
    expected := expected + Origins(pieces[from..]);
  }

  /** The three ways to start: the new run before untouched runs, right before
      the first covered one, or after its kept front. */
  lemma {:induction false} HeadInOrder(frags: seq<Fragment>, r: Range, d: Identity, head: nat, interior: bool, pieces: seq<Fragment>,
                                       insert: Option<nat>, x: Option<Identity>)
    requires head < |frags| && NoneCovered(frags, r, 0, head) && pieces == StagedRun(frags, r, d, head)
    requires insert.Some? <==> x.Some?
    requires insert.Some? ==> if interior then insert.value == head + 1 else insert.value <= head
    ensures pieces != [] && pieces[0..] == pieces
    ensures insert.None? ==> InOrder(frags, r, d, head, insert, x, head + 1, [] + Origins(pieces))
    ensures insert.Some? && insert.value < head ==>
              InOrder(frags, r, d, head, insert, x, head + 1, [x.value] + Origins(frags[insert.value..head]) + Origins(pieces))
    ensures insert.Some? && insert.value == head ==> InOrder(frags, r, d, head, insert, x, head + 1, [] + [x.value] + Origins(pieces))
    ensures insert.Some? && insert.value > head ==>
              InOrder(frags, r, d, head, insert, x, head + 1, [] + [pieces[0].origin] + [x.value] + Origins(pieces[1..]))
  {
    var first, at := FirstRank(head, insert), InsertOffset(head, insert);
    HeadIsStaged(frags, r, d, head, first);
    var s := Staged(frags, r, d, first, head + 1);
    OriginsAppend(frags[first..head], pieces);
    assert pieces != [];
    hide Staged, StagedRun, NoneCovered;
    assert frags[head..head] == [];
    assert Origins(s) == Origins(frags[first..head]) + Origins(pieces);
    assert Origins(pieces)[1..] == Origins(pieces[1..]);
    if insert.Some? && insert.value > head {
      assert at == 1 && Origins(s)[..1] == [pieces[0].origin] && Origins(s)[1..] == Origins(pieces[1..]);
    } else if insert.Some? {
      assert Origins(s)[..0] == [] && Origins(s)[0..] == Origins(s);
    }
  }

  lemma {:induction false} HeadIsStaged(frags: seq<Fragment>, r: Range, d: Identity, head: nat, first: nat)
    requires first <= head < |frags| && NoneCovered(frags, r, 0, head)
    ensures Staged(frags, r, d, first, head + 1) == frags[first..head] + StagedRun(frags, r, d, head)
  {
    assert NoneCovered(frags, r, first, head);
    hide Staged, StagedRun;
    StagedSame(frags, r, d, first, head);
    StagedOne(frags, r, d, head);
    StagedJoin(frags, r, d, first, head, head + 1);
  }

  /** The order the ranks predict for the changed part. */
  method ExpectedOrder(frags: seq<Fragment>, r: Range, ghost d: Identity, covered: seq<Target>, pieces: seq<seq<Fragment>>,
                       insert: Option<nat>, x: Option<Identity>)
    returns (ok: bool, expected: seq<Identity>)
    requires covered == CoveredBelow(frags, r, |frags|) && pieces == Planned(frags, r, d, |frags|) && covered != []
    requires (insert.Some? <==> x.Some?) && (insert.Some? ==> InsertsAt(frags, r, insert.value))
    ensures ok && InOrder(frags, r, d, covered[0].frag, insert, x, covered[|covered| - 1].frag + 1, expected)
  {
    hide *;
    TargetAt(frags, r, d, 0);
    LastGap(frags, r, d);
    InsertsWhere(frags, r, insert);
    ok, expected := HeadOrder(frags, r, d, covered[0], pieces[0], insert, x);
    if !ok { return; }
    for k := 1 to |covered|
      invariant InOrder(frags, r, d, covered[0].frag, insert, x, covered[k - 1].frag + 1, expected)
    {
      TargetGap(frags, r, d, k - 1);
      TargetAt(frags, r, d, k);
      NextOrder(frags, r, d, covered[0].frag, covered[k - 1].frag + 1, covered[k].frag, insert, x, expected);
      var gap;
      ok, gap := GapOrigins(frags, covered[k - 1].frag + 1, covered[k].frag);
      if !ok { return; }
      expected := expected + gap + Origins(pieces[k]);
    }
    ok := true;
  }

  lemma {:induction false} InsertsWhere(frags: seq<Fragment>, r: Range, insert: Option<nat>)
    requires CoveredBelow(frags, r, |frags|) != [] && (insert.Some? ==> InsertsAt(frags, r, insert.value))
    ensures var head := CoveredBelow(frags, r, |frags|)[0];
            insert.Some? ==> if head.off > 0 then insert.value == head.frag + 1 else insert.value <= head.frag
  {
  }

  /** The next covered run, after the untouched ones before it. */
  lemma {:induction false} NextOrder(frags: seq<Fragment>, r: Range, d: Identity, head: nat, lo: nat, at: nat,
                                     insert: Option<nat>, x: Option<Identity>, expected: seq<Identity>)
    requires lo <= at < |frags| && NoneCovered(frags, r, lo, at) && InOrder(frags, r, d, head, insert, x, lo, expected)
    ensures InOrder(frags, r, d, head, insert, x, at + 1, expected + Origins(frags[lo..at]) + Origins(StagedRun(frags, r, d, at)))
  {
    var first, off := FirstRank(head, insert), InsertOffset(head, insert);
    hide Staged, StagedRun, NoneCovered, OrderOf, IsCovered, FirstRank, InsertOffset, Origins, NonEmptyRuns;
    OrderGrows(frags, r, d, first, lo, at, off, x);
    OrderGrows(frags, r, d, first, at, at + 1, off, x);
    StagedSame(frags, r, d, lo, at);
    StagedOne(frags, r, d, at);
  }

  /** The staged runs, with the new run, in the predicted order. */
  lemma {:induction false} OrderHolds(frags: seq<Fragment>, r: Range, d: Identity, covered: seq<Target>, insert: Option<nat>, f: Option<Fragment>,
                                      expected: seq<Identity>)
    requires covered == CoveredBelow(frags, r, |frags|) && covered != []
    requires (insert.Some? <==> f.Some?) && (insert.Some? ==> InsertsAt(frags, r, insert.value))
    requires InOrder(frags, r, d, covered[0].frag, insert, OriginOf(f), covered[|covered| - 1].frag + 1, expected)
    ensures insert.Some? ==> insert.value <= |Staged(frags, r, d, 0, |frags|)|
    ensures var first, last := FirstRank(covered[0].frag, insert), covered[|covered| - 1].frag;
            var all := PutRun(Staged(frags, r, d, 0, |frags|), insert, f);
            && |expected| + first == last + 1 - |covered| + |Flatten(Planned(frags, r, d, |frags|))| + (if f.Some? then 1 else 0)
            && first + |expected| <= |all|
            && Origins(all)[first..first + |expected|] == expected
  {
    hide CoveredBelow, Planned, Flatten, Staged, StagedRun, IsCovered, NoneCovered, InsertsAt;
    var first, last := FirstRank(covered[0].frag, insert), covered[|covered| - 1].frag;
    var at := InsertOffset(covered[0].frag, insert);
    InsertsWhere(frags, r, insert);
    ChangedPart(frags, r, d, covered, first);
    PutMiddle(frags[..first], Staged(frags, r, d, first, last + 1), frags[last + 1..], at, f);
  }

  function OriginOf(f: Option<Fragment>): Option<Identity> {
    if f.Some? then Some(f.value.origin) else None
  }

  function PutRun(staged: seq<Fragment>, insert: Option<nat>, f: Option<Fragment>): seq<Fragment>
    requires insert.Some? ==> insert.value <= |staged|
  {
    Put(staged, if insert.Some? then insert.value else 0, f)
  }

  lemma {:induction false} PutMiddle(head: seq<Fragment>, mid: seq<Fragment>, tail: seq<Fragment>, at: nat, f: Option<Fragment>)
    requires at <= |mid|
    ensures var all := Put(head + mid + tail, |head| + at, f);
            var e := Put(Origins(mid), at, OriginOf(f));
            && |head| + |e| <= |all| && Origins(all)[|head|..|head| + |e|] == e
            && (f.None? ==> all == Put(head + mid + tail, 0, f))
  {
    var e := Put(Origins(mid), at, OriginOf(f));
    var m := Put(mid, at, f);
    assert Origins(m) == e;
    assert Put(head + mid + tail, |head| + at, f) == head + m + tail by {
      if f.Some? {
        assert (head + mid + tail)[..|head| + at] == head + mid[..at];
        assert (head + mid + tail)[|head| + at..] == mid[at..] + tail;
      }
    }
    OriginsAppend(head + m, tail);
    OriginsAppend(head, m);
  }

  lemma {:induction false} ChangedPart(frags: seq<Fragment>, r: Range, d: Identity, covered: seq<Target>, first: nat)
    requires covered == CoveredBelow(frags, r, |frags|) && covered != [] && first <= covered[0].frag
    ensures first <= covered[0].frag <= covered[|covered| - 1].frag < |frags|
    ensures Staged(frags, r, d, 0, |frags|)
            == frags[..first] + Staged(frags, r, d, first, covered[|covered| - 1].frag + 1) + frags[covered[|covered| - 1].frag + 1..]
    ensures |Staged(frags, r, d, first, covered[|covered| - 1].frag + 1)| + first + |covered|
            == covered[|covered| - 1].frag + 1 + |Flatten(Planned(frags, r, d, |frags|))|
  {
    hide *;
    var last := covered[|covered| - 1].frag;
    LastGap(frags, r, d);
    StagedLength(frags, r, d, |frags|);
    NoneBefore(frags, r, first, covered[0].frag);
    StagedSame(frags, r, d, 0, first);
    StagedSame(frags, r, d, last + 1, |frags|);
    StagedJoin(frags, r, d, 0, first, last + 1);
    StagedJoin(frags, r, d, 0, last + 1, |frags|);
  }

  lemma {:induction false} NoneBefore(frags: seq<Fragment>, r: Range, first: nat, head: nat)
    requires first <= head <= |frags| && NoneCovered(frags, r, 0, head)
    ensures NoneCovered(frags, r, 0, first)
  {
    hide IsCovered;
  }

  lemma {:induction false} CoveredPair(frags: seq<Fragment>, r: Range, d: Identity, j: nat, k: nat)
    requires j < k < |CoveredBelow(frags, r, |frags|)|
    ensures CoveredBelow(frags, r, |frags|)[j].frag < CoveredBelow(frags, r, |frags|)[k].frag
    decreases k
  {
    hide *;
    TargetGap(frags, r, d, k - 1);
    if j < k - 1 { CoveredPair(frags, r, d, j, k - 1); }
  }

  /** The last check before publication: every changed rank holds the run it must. */
  method CheckOrder(staged: seq<Fragment>, first: nat, lastRank: int, expected: seq<Identity>) returns (ok: bool)
    ensures ok <==> |expected| == lastRank - first + 1 && first + |expected| <= |staged|
                    && Origins(staged)[first..first + |expected|] == expected
  {
    if |expected| != lastRank - first + 1 { return false; }
    for i := 0 to |expected|
      invariant first + i <= |staged| || i == 0
      invariant forall j :: 0 <= j < i ==> staged[first + j].origin == expected[j]
    {
      if first + i >= |staged| || staged[first + i].origin != expected[i] {
        assert first + |expected| <= |staged| ==> Origins(staged)[first..first + |expected|][i] == staged[first + i].origin;
        return false;
      }
    }
    ok := first + |expected| <= |staged|;
    assert ok ==> Origins(staged)[first..first + |expected|] == expected;
  }
}
