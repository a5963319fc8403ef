/** The index rows of an edited range: the rows of the covered runs go, the rows
    of their pieces and of the new run come, every one under a new handle. What
    comes out is the index of the staged runs. */
module RunRows {
  import opened Ids
  import opened FugueOrder
  import opened Fragments
  import opened Indexes
  import opened DeletionRuns

  // ---- Rows out, rows in -------------------------------------------------

  ghost function StartsOf(frags: seq<Fragment>, covered: seq<Target>): set<Identity>
    requires AllInBounds(frags, covered)
  {
    set t | t in covered :: frags[t.frag].origin
  }

  /** Remove the rows of the covered runs. */
  method EraseCovered(frags: seq<Fragment>, index: RunIndex, covered: seq<Target>)
    returns (ok: bool, origins: Origins, deletions: Deletions)
    requires Coherent(frags, index) && AllInBounds(frags, covered)
    ensures ok ==> origins == index.origins - StartsOf(frags, covered)
    ensures ok ==> deletions == LabelsWithout(index.deletions, StartsOf(frags, covered))
  {
    CoherentStarts(frags, index);
    origins, deletions := index.origins, index.deletions;
    ghost var gone: set<Identity> := {};
    assert deletions == LabelsWithout(index.deletions, gone);
    hide Coherent, StartsOf, LabelsWithout, OwnLabels;
    for k := 0 to |covered|
      invariant AllInBounds(frags, covered[..k]) && gone == StartsOf(frags, covered[..k])
      invariant origins == index.origins - gone && deletions == LabelsWithout(index.deletions, gone)
    {
      assert covered[k] in covered;
      var f := frags[covered[k].frag];
      ok, origins, deletions := EraseRow(f, origins, deletions, index.origins, index.deletions, gone);
      if !ok { return; }
      StartsStep(frags, covered, k);
      gone := gone + {f.origin};
    }
    assert covered[..|covered|] == covered;
    ok := true;
  }

  /** Remove the rows of one run. */
  method EraseRow(f: Fragment, origins: Origins, deletions: Deletions, ghost was: Origins, ghost labels: Deletions, ghost gone: set<Identity>)
    returns (ok: bool, origins': Origins, deletions': Deletions)
    requires OwnLabels(f, labels) && origins == was - gone && deletions == LabelsWithout(labels, gone)
    ensures ok ==> origins' == was - (gone + {f.origin})
    ensures ok ==> deletions' == LabelsWithout(labels, gone + {f.origin})
  {
    hide OwnLabels, LabelsWithout;
    origins', deletions' := origins, deletions;
    if f.origin !in origins { return false, origins', deletions'; }
    ok, deletions' := EraseLabels(deletions, f);
    if !ok { return; }
    ErasedLabels(f, labels, gone);
    origins' := origins - {f.origin};
  }

  lemma {:induction false} StartsStep(frags: seq<Fragment>, covered: seq<Target>, k: nat)
    requires AllInBounds(frags, covered) && k < |covered| && covered[k].frag < |frags|
    ensures AllInBounds(frags, covered[..k]) && AllInBounds(frags, covered[..k + 1])
    ensures StartsOf(frags, covered[..k + 1]) == StartsOf(frags, covered[..k]) + {frags[covered[k].frag].origin}
  {
    assert covered[..k + 1] == covered[..k] + [covered[k]];
  }

  /** The new rows: consecutive handles from `next` on. */
  function Entries(frags: seq<Fragment>, next: RunId): (r: seq<Entry>)
    requires next + |frags| <= U64
    ensures |r| == |frags|
  {
    seq(|frags|, j requires 0 <= j < |frags| => Entry(frags[j], next + j))
  }

  method InsertEntries(origins: Origins, deletions: Deletions, todo: seq<Entry>) returns (ok: bool, o: Origins, d: Deletions)
    requires RowsApart(origins)
    ensures ok ==> RowsApart(o) && RowsAdded(origins, o, todo) && LabelsAdded(deletions, d, todo)
  {
    o, d := origins, deletions;
    for k := 0 to |todo|
      invariant RowsApart(o) && RowsAdded(origins, o, todo[..k]) && LabelsAdded(deletions, d, todo[..k])
    {
      assert todo[..k + 1] == todo[..k] + [todo[k]];
      hide RowsApart, RowsAdded, LabelsAdded;
      ok, o, d := InsertRow(origins, o, deletions, d, todo[..k], todo[k]);
      if !ok { return; }
    }
    assert todo[..|todo|] == todo;
    ok := true;
  }

  // ---- The tables say what the staged runs say ---------------------------

  ghost predicate Entered(todo: seq<Entry>, f: Fragment) {
    exists e :: e in todo && e.frag == f
  }

  /** `all` holds the runs that did not go and the runs that came. */
  ghost predicate Keeps(frags: seq<Fragment>, gone: set<Identity>, todo: seq<Entry>, all: seq<Fragment>) {
    forall f :: f in all <==> (f in frags && f.origin !in gone) || Entered(todo, f)
  }

  ghost predicate Staging(frags: seq<Fragment>, index: RunIndex, gone: set<Identity>, todo: seq<Entry>, all: seq<Fragment>, o: Origins, d: Deletions) {
    && Coherent(frags, index) && Keeps(frags, gone, todo, all)
    && RowsAdded(index.origins - gone, o, todo)
    && LabelsAdded(LabelsWithout(index.deletions, gone), d, todo)
  }

  lemma {:induction false} KeptRow(frags: seq<Fragment>, index: RunIndex, f: Fragment)
    requires Coherent(frags, index) && f in frags
    ensures f.origin in index.origins && index.origins[f.origin].end == End(f)
  {
    var i :| 0 <= i < |frags| && frags[i] == f;
  }

  /** Every staged run has its row. */
  lemma {:induction false} StagedRow(frags: seq<Fragment>, index: RunIndex, gone: set<Identity>, todo: seq<Entry>, all: seq<Fragment>,
                                     o: Origins, d: Deletions, f: Fragment)
    requires Staging(frags, index, gone, todo, all, o, d) && f in all
    ensures f.origin in o && o[f.origin].end == End(f)
    ensures (f in frags && f.origin !in gone && f.origin in index.origins && o[f.origin] == index.origins[f.origin])
            || (exists e :: e in todo && e.frag == f && o[f.origin] == e.Row())
  {
    if f in frags && f.origin !in gone {
      KeptRow(frags, index, f);
    } else {
      assert Entered(todo, f);
    }
  }

  lemma {:induction false} StagedOrigins(frags: seq<Fragment>, index: RunIndex, gone: set<Identity>, todo: seq<Entry>, all: seq<Fragment>,
                                         o: Origins, d: Deletions)
    requires Staging(frags, index, gone, todo, all, o, d)
    ensures Listed(all, o) && OriginsMatch(all, RunsOf(all, o), o)
  {
    forall i | 0 <= i < |all|
      ensures all[i].origin in o && o[all[i].origin].end == End(all[i])
    {
      StagedRow(frags, index, gone, todo, all, o, d, all[i]);
    }
    forall s | s in o
      ensures StartsRun(all, s)
    {
      StartIsStaged(frags, index, gone, todo, all, o, d, s);
    }
  }

  lemma {:induction false} StartIsStaged(frags: seq<Fragment>, index: RunIndex, gone: set<Identity>, todo: seq<Entry>, all: seq<Fragment>,
                                         o: Origins, d: Deletions, s: Identity)
    requires Staging(frags, index, gone, todo, all, o, d) && s in o
    ensures StartsRun(all, s)
  {
    var f: Fragment;
    if s in index.origins - gone {
      var i := RunAt(frags, index, s);
      f := frags[i];
    } else {
      var e :| e in todo && e.frag.origin == s;
      f := e.frag;
      assert Entered(todo, f);
    }
    assert f in all;
    var j :| 0 <= j < |all| && all[j] == f;
    assert all[j].origin == s;
  }

  lemma {:induction false} StagedLabels(frags: seq<Fragment>, index: RunIndex, gone: set<Identity>, todo: seq<Entry>, all: seq<Fragment>,
                                        o: Origins, d: Deletions)
    requires Staging(frags, index, gone, todo, all, o, d) && Listed(all, o)
    ensures DeletionsMatch(all, RunsOf(all, o), d)
  {
    forall i, x | 0 <= i < |all| && x in all[i].deletions
      ensures Incidence(x, all[i].origin) in d && d[Incidence(x, all[i].origin)] == Interval(End(all[i]), RunsOf(all, o)[i])
    {
      StagedRow(frags, index, gone, todo, all, o, d, all[i]);
      StagedLabel(frags, index, gone, todo, all, o, d, all[i], x);
    }
    forall k | k in d
      ensures Labels(all, k)
    {
      LabelIsStaged(frags, index, gone, todo, all, o, d, k);
    }
  }

  lemma {:induction false} StagedLabel(frags: seq<Fragment>, index: RunIndex, gone: set<Identity>, todo: seq<Entry>, all: seq<Fragment>,
                                       o: Origins, d: Deletions, f: Fragment, x: Identity)
    requires Staging(frags, index, gone, todo, all, o, d) && f in all && x in f.deletions && f.origin in o
    ensures Incidence(x, f.origin) in d && d[Incidence(x, f.origin)] == o[f.origin]
  {
    StagedRow(frags, index, gone, todo, all, o, d, f);
    if f in frags && f.origin !in gone && f.origin in index.origins && o[f.origin] == index.origins[f.origin] {
      KeptLabel(frags, index, f, x);
      assert Incidence(x, f.origin) in LabelsWithout(index.deletions, gone);
    } else {
      var e :| e in todo && e.frag == f && o[f.origin] == e.Row();
      LabelAdded(LabelsWithout(index.deletions, gone), d, todo, e, x);
    }
  }

  lemma {:induction false} LabelIsStaged(frags: seq<Fragment>, index: RunIndex, gone: set<Identity>, todo: seq<Entry>, all: seq<Fragment>,
                                         o: Origins, d: Deletions, k: Incidence)
    requires Staging(frags, index, gone, todo, all, o, d) && k in d
    ensures Labels(all, k)
  {
    var f: Fragment;
    if k in LabelsWithout(index.deletions, gone) {
      f := LabelledRun(frags, index, k);
    } else {
      var e :| e in todo && LabelOf(e.frag, k);
      f := e.frag;
      assert Entered(todo, f);
    }
    assert f in all;
    var j :| 0 <= j < |all| && all[j] == f;
    assert all[j].origin == k.start && k.deletion in all[j].deletions;
  }

  ghost predicate Numbered(todo: seq<Entry>, next: RunId) {
    next != 0 && forall j :: 0 <= j < |todo| ==> todo[j].run == next + j
  }

  /** No handle is given twice. */
  lemma {:induction false} StagedHandles(frags: seq<Fragment>, index: RunIndex, gone: set<Identity>, todo: seq<Entry>, all: seq<Fragment>,
                                         o: Origins, d: Deletions)
    requires Staging(frags, index, gone, todo, all, o, d) && Listed(all, o)
    requires Numbered(todo, index.nextRun) && StartsDiffer(all)
    ensures Handles(RunsOf(all, o))
    ensures forall i :: 0 <= i < |all| ==> RunsOf(all, o)[i] < index.nextRun + |todo|
  {
    CoherentHandles(frags, index);
    var runs := RunsOf(all, o);
    forall i | 0 <= i < |all|
      ensures 0 < runs[i] < index.nextRun + |todo|
    {
      StagedRow(frags, index, gone, todo, all, o, d, all[i]);
    }
    forall i, j | 0 <= i < j < |all|
      ensures runs[i] != runs[j]
    {
      HandlesDiffer(frags, index, gone, todo, all, o, d, all[i], all[j]);
    }
  }

  lemma {:induction false} HandlesDiffer(frags: seq<Fragment>, index: RunIndex, gone: set<Identity>, todo: seq<Entry>, all: seq<Fragment>,
                                         o: Origins, d: Deletions, f: Fragment, g: Fragment)
    requires Staging(frags, index, gone, todo, all, o, d) && HandlesUnique(index)
    requires Numbered(todo, index.nextRun) && f in all && g in all && f.origin != g.origin
    ensures f.origin in o && g.origin in o && o[f.origin].run != o[g.origin].run
  {
    StagedRow(frags, index, gone, todo, all, o, d, f);
    StagedRow(frags, index, gone, todo, all, o, d, g);
    hide Staging, Coherent;
    if exists e :: e in todo && e.frag == f && o[f.origin] == e.Row() {
      var e :| e in todo && e.frag == f && o[f.origin] == e.Row();
      var a :| 0 <= a < |todo| && todo[a] == e;
    }
    if exists e :: e in todo && e.frag == g && o[g.origin] == e.Row() {
      var e :| e in todo && e.frag == g && o[g.origin] == e.Row();
      var b :| 0 <= b < |todo| && todo[b] == e;
    }
  }

  lemma {:induction false} DistinctStarts(all: seq<Fragment>)
    requires NonEmptyRuns(all) && Distinct(DocOf(all))
    ensures StartsDiffer(all)
  {
    forall i, j | 0 <= i < j < |all|
      ensures all[i].origin != all[j].origin
    {
      FlatItem(all, Pos(i, 0));
      FlatItem(all, Pos(j, 0));
      FlatOrder(all, Pos(i, 0), Pos(j, 0));
    }
  }

  /** Exchange the rows of the covered runs for those of `added`, which are the
      pieces and perhaps one run more; that one's handle is used up either way. */
  method ExchangeRows(frags: seq<Fragment>, index: RunIndex, covered: seq<Target>, added: seq<Fragment>, pieces: nat, all: seq<Fragment>)
    returns (ok: bool, index': RunIndex)
    requires index.valid && Coherent(frags, index) && AllInBounds(frags, covered)
    requires index.nextRun != 0 && index.nextRun + pieces < U64 && pieces <= |added| <= pieces + 1
    requires Keeps(frags, StartsOf(frags, covered), Entries(added, index.nextRun), all)
    requires NonEmptyRuns(all) && Distinct(DocOf(all))
    ensures ok ==> index'.valid && Coherent(all, index') && Spends(index, pieces + 1, index')
  {
    index' := index;
    var o, d;
    ok, o, d := EraseCovered(frags, index, covered);
    if !ok { return; }
    CoherentRowsApart(frags, index);
    var todo := Entries(added, index.nextRun);
    ok, o, d := InsertEntries(o, d, todo);
    if !ok { return; }
    var located, directory := BuildDirectory(all, o);
    if !located { return false, index; }
    index' := RunIndex(o, d, directory, NextRun(index.nextRun + pieces), true);
    ghost var gone := StartsOf(frags, covered);
    assert Staging(frags, index, gone, todo, all, o, d);
    hide Staging, Coherent, Keeps;
    DistinctStarts(all);
    StagedOrigins(frags, index, gone, todo, all, o, d);
    StagedLabels(frags, index, gone, todo, all, o, d);
    StagedHandles(frags, index, gone, todo, all, o, d);
    MatchedIsCoherent(all, RunsOf(all, o), index');
  }
}
